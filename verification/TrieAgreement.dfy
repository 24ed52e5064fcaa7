/** The two indexes side by side: after the same operations they give the same answers, those of the plain maps, and
    what each of them keeps for that is known exactly. */
module TrieAgreement {
  import opened Paths
  import opened Options
  import opened Topics
  import opened Subscriptions
  import opened TrieMaps
  import MemTrie
  import LockFreeTrie

  /** `sub` is None for the nil subscriber, which removes all of them. */
  datatype Operation =
    | Subscribe(filter: string, id: SubId, params: Params)
    | Unsubscribe(filter: string, sub: Option<SubId>)
    | Store(topic: string, message: Message)
    | Clear(topic: string)

  /** The two plain maps, and every path at which anything has ever been stored. */
  datatype Index = Index(content: Content, retained: map<Path, Message>, inserted: set<Path>)

  const Empty := Index(map[], map[], {})

  lemma EmptyParts()
    ensures Empty == Index(map[], map[], {})
  {
  }

  function Apply(op: Operation, x: Index): Index {
    match op
    case Subscribe(f, id, p) =>
      var at := Split(f);
      x.(content := WithSubs(x.content, at, SubsAt(x.content, at)[id := p]), inserted := x.inserted + {at})
    case Unsubscribe(f, sub) => x.(content := WithSubs(x.content, Split(f), Dropped(SubsAt(x.content, Split(f)), sub)))
    case Store(t, m) => x.(retained := x.retained[Split(t) := m], inserted := x.inserted + {Split(t)})
    case Clear(t) => x.(retained := x.retained - {Split(t)})
  }

  function ApplyAll(ops: seq<Operation>, x: Index): Index {
    if ops == [] then x else ApplyAll(ops[1..], Apply(ops[0], x))
  }

  method Mem(p: MemTrie.Provider, op: Operation, ghost x: Index)
    requires p.Valid() && p.Pruned() && p.content == x.content && p.retained == x.retained
    modifies p, p.repr
    ensures p.Valid() && p.Pruned() && fresh(p.repr - old(p.repr))
    ensures p.content == Apply(op, x).content && p.retained == Apply(op, x).retained
  {
    hide WithSubs, SubsAt, Split;
    match op {
      case Subscribe(f, id, params) => var _ := p.SubscriptionInsert(f, id, params);
      case Unsubscribe(f, sub) => var _, _ := p.SubscriptionRemove(f, sub);
      case Store(t, m) => p.RetainInsert(t, m);
      case Clear(t) => var _ := p.RetainRemove(t);
    }
  }

  method LockFree(p: LockFreeTrie.Provider, op: Operation, ghost x: Index)
    requires p.Valid() && p.Kept() && p.Stands(x.content, x.retained, x.inserted)
    modifies p, p.repr
    ensures p.Valid() && p.Kept() && fresh(p.repr - old(p.repr))
    ensures p.Stands(Apply(op, x).content, Apply(op, x).retained, Apply(op, x).inserted)
  {
    hide WithSubs, SubsAt, Split;
    match op {
      case Subscribe(f, id, params) => var _ := p.SubscriptionInsert(f, id, params);
      case Unsubscribe(f, sub) => var _ := p.SubscriptionRemove(f, sub);
      case Store(t, m) => p.RetainInsert(t, m);
      case Clear(t) => var _ := p.RetainRemove(t);
    }
  }

  /** Any sequence of completed operations on both. */
  method Replay(ops: seq<Operation>, overlapping: bool) returns (mem: MemTrie.Provider, free: LockFreeTrie.Provider)
    ensures fresh(mem) && fresh(free) && mem.overlapping == free.overlapping == overlapping
    ensures mem.Valid() && mem.Pruned() && free.Valid() && free.Kept()
    ensures var x := ApplyAll(ops, Empty);
            mem.content == x.content && mem.retained == x.retained && free.Stands(x.content, x.retained, x.inserted)
  {
    hide *;
    mem := new MemTrie.Provider(overlapping);
    free := new LockFreeTrie.Provider(overlapping);
    ghost var x := Empty;
    EmptyParts();
    assert ops[0..] == ops;
    free.StandsNow();
    for k := 0 to |ops|
      invariant mem.Valid() && free.Valid() && fresh(mem) && fresh(free) && fresh(mem.repr) && fresh(free.repr)
      invariant mem.Pruned() && mem.content == x.content && mem.retained == x.retained
      invariant free.Kept() && free.Stands(x.content, x.retained, x.inserted)
      invariant ApplyAll(ops[k..], x) == ApplyAll(ops, Empty)
    {
      ApplyFirst(ops, k, x);
      Mem(mem, ops[k], x);
      LockFree(free, ops[k], x);
      x := Apply(ops[k], x);
    }
    ApplyNone(ops, x);
  }

  /** After any sequence of completed operations both indexes collect the same for every topic, namely what the
      filters matching it hold in the plain map. */
  method SameAnswers(ops: seq<Operation>, overlapping: bool, topic: string, publisher: SubId)
    returns (a: Publishes, b: Publishes)
    ensures a == b == Search(overlapping, ApplyAll(ops, Empty).content, Split(topic), publisher)
  {
    hide *;
    var mem, free := Replay(ops, overlapping);
    free.StandsNow();
    a := mem.SubscriptionSearch(topic, publisher);
    b := free.SubscriptionSearch(topic, publisher);
  }

  lemma ApplyFirst(ops: seq<Operation>, k: nat, x: Index)
    requires k < |ops|
    ensures ApplyAll(ops[k..], x) == ApplyAll(ops[k + 1..], Apply(ops[k], x))
  {
  }

  lemma ApplyNone(ops: seq<Operation>, x: Index)
    ensures ApplyAll(ops[|ops|..], x) == x
  {
  }

  // ---------------------------------------------------------------- the last word on a subscription

  /** The operation makes, changes or removes this subscriber's subscription to the filter. */
  ghost predicate Touches(op: Operation, f: Path, id: SubId) {
    match op
    case Subscribe(g, i, _) => Split(g) == f && i == id
    case Unsubscribe(g, sub) => Split(g) == f && (sub.None? || sub.value == id)
    case _ => false
  }

  /** The operation stores or removes the message retained at the topic. */
  ghost predicate Retains(op: Operation, t: Path) {
    match op
    case Store(g, _) => Split(g) == t
    case Clear(g) => Split(g) == t
    case _ => false
  }

  lemma {:induction false} ApplySnoc(ops: seq<Operation>, op: Operation, x: Index)
    ensures ApplyAll(ops + [op], x) == Apply(op, ApplyAll(ops, x))
  {
    if ops == [] {
      assert ops + [op] == [op] && [op][1..] == [];
    } else {
      assert (ops + [op])[1..] == ops[1..] + [op];
      ApplySnoc(ops[1..], op, Apply(ops[0], x));
    }
  }

  lemma ApplyLast(ops: seq<Operation>)
    requires ops != []
    ensures ApplyAll(ops, Empty) == Apply(ops[|ops| - 1], ApplyAll(ops[..|ops| - 1], Empty))
  {
    var init, op := ops[..|ops| - 1], ops[|ops| - 1];
    assert ops == init + [op];
    ApplySnoc(init, op, Empty);
  }

  lemma ApplyHas(op: Operation, x: Index)
    requires Proper(x.content)
    ensures Proper(Apply(op, x).content)
    ensures forall f, id, p :: Has(Apply(op, x).content, f, id, p) <==>
              if Touches(op, f, id) then op.Subscribe? && op.params == p else Has(x.content, f, id, p)
  {
    match op
    case Subscribe(g, i, q) =>
      PutOne(x.content, Split(g), i, q);
      WithSubsAt(x.content, Split(g), SubsAt(x.content, Split(g))[i := q]);
    case Unsubscribe(g, sub) =>
      DropOne(x.content, Split(g), sub);
      WithSubsAt(x.content, Split(g), Dropped(SubsAt(x.content, Split(g)), sub));
    case _ =>
  }

  /** The last operation on a subscription. */
  ghost predicate Last(ops: seq<Operation>, k: int, f: Path, id: SubId) {
    0 <= k < |ops| && Touches(ops[k], f, id) && forall j :: k < j < |ops| ==> !Touches(ops[j], f, id)
  }

  /** After any sequence of operations a subscription is there, with given parameters, exactly when the last operation
      on it has made it with these; so one that was made and not removed since is still there. */
  lemma {:induction false} StillThere(ops: seq<Operation>, f: Path, id: SubId, p: Params)
    ensures Proper(ApplyAll(ops, Empty).content)
    ensures Has(ApplyAll(ops, Empty).content, f, id, p) <==>
            exists k :: Last(ops, k, f, id) && ops[k].Subscribe? && ops[k].params == p
  {
    if ops != [] {
      var n := |ops| - 1;
      var init, op := ops[..n], ops[n];
      StillThere(init, f, id, p);
      ApplyLast(ops);
      ApplyHas(op, ApplyAll(init, Empty));
      hide Touches, Apply, ApplyAll, Proper, Has;
      LastStep(ops, f, id);
      if Touches(op, f, id) {
        assert Last(ops, n, f, id);
      } else {
        assert forall k :: 0 <= k < n ==> init[k] == ops[k];
      }
    }
  }

  lemma LastStep(ops: seq<Operation>, f: Path, id: SubId)
    requires ops != []
    ensures var n := |ops| - 1;
            forall k :: Last(ops, k, f, id) <==>
              if Touches(ops[n], f, id) then k == n else k < n && Last(ops[..n], k, f, id)
  {
    hide Touches;
    var n := |ops| - 1;
    var init := ops[..n];
    forall k | 0 <= k < n && !Touches(ops[n], f, id) ensures Last(ops, k, f, id) <==> Last(init, k, f, id) {
      assert init[k] == ops[k];
      if Last(ops, k, f, id) {
        forall j | k < j < n ensures !Touches(init[j], f, id) { assert ops[j] == init[j]; }
      }
      if Last(init, k, f, id) {
        forall j | k < j < |ops| ensures !Touches(ops[j], f, id) {
          if j < n { assert init[j] == ops[j]; }
        }
      }
    }
  }

  /** The same for retained messages. */
  lemma {:induction false} StillRetained(ops: seq<Operation>, t: Path, m: Message)
    ensures RetainedAt(ApplyAll(ops, Empty).retained, t) == Some(m) <==>
            exists k :: 0 <= k < |ops| && Retains(ops[k], t) && ops[k].Store? && ops[k].message == m
                        && forall j :: k < j < |ops| ==> !Retains(ops[j], t)
  {
    if ops != [] {
      var n := |ops| - 1;
      var init, op := ops[..n], ops[n];
      StillRetained(init, t, m);
      ApplyLast(ops);
      if !Retains(op, t) {
        assert RetainedAt(ApplyAll(ops, Empty).retained, t) == RetainedAt(ApplyAll(init, Empty).retained, t);
        hide Retains, Apply, ApplyAll;
        assert forall k :: 0 <= k < n ==> init[k] == ops[k];
      } else {
        assert Retains(ops[n], t);
      }
    }
  }

  // ---------------------------------------------------------------- what is kept

  ghost predicate StoredAt(x: Index, p: Path) {
    p in x.content || p in x.retained
  }

  ghost predicate Leads(x: Index, p: Path) {
    exists q :: p <= q && StoredAt(x, q)
  }

  lemma {:induction false} StoredInserted(ops: seq<Operation>, x: Index)
    requires forall p :: StoredAt(x, p) ==> p in x.inserted
    ensures forall p :: StoredAt(ApplyAll(ops, x), p) ==> p in ApplyAll(ops, x).inserted
  {
    if ops != [] {
      StoredInserted(ops[1..], Apply(ops[0], x));
    }
  }

  lemma StoredWithin(ops: seq<Operation>)
    ensures var x := ApplyAll(ops, Empty); forall p :: StoredAt(x, p) ==> p in x.inserted
  {
    StoredInserted(ops, Empty);
  }

  /** The simple index keeps a node exactly for what leads to stored data.  The other one keeps a node for what is
      stored and for every parent there has ever been; so it is pruned like the simple one exactly when every such
      parent still leads to stored data. */
  method NodesKept(ops: seq<Operation>, overlapping: bool) returns (ghost mem: set<Path>, ghost free: set<Path>)
    ensures var x := ApplyAll(ops, Empty);
            && (forall p :: p in mem <==> p == [] || Leads(x, p))
            && (forall p :: p in free <==> p == [] || StoredAt(x, p) || LockFreeTrie.Parental(x.inserted, p))
            && (mem == free <==> forall p :: LockFreeTrie.Parental(x.inserted, p) ==> p == [] || Leads(x, p))
  {
    hide *;
    var m, f := Replay(ops, overlapping);
    ghost var x := ApplyAll(ops, Empty);
    mem, free := m.tree.Keys, f.tree.Keys;
    f.NodesAreParents();
    f.StandsNow();
    forall p ensures p in mem <==> p == [] || Leads(x, p) {
      m.NodesArePrefixes(p);
      LeadsWhen(x, p);
    }
    StoredWhen(x);
    StoredWithin(ops);
    Compare(x, mem, free);
  }

  lemma LeadsWhen(x: Index, p: Path)
    ensures Leads(x, p) <==> exists q :: p <= q && (q in x.content || q in x.retained)
  {
    if q :| p <= q && (q in x.content || q in x.retained) {
      assert StoredAt(x, q);
    }
  }

  lemma StoredWhen(x: Index)
    ensures forall p :: StoredAt(x, p) <==> p in x.content || p in x.retained
  {
  }

  lemma Compare(x: Index, mem: set<Path>, free: set<Path>)
    requires forall p :: StoredAt(x, p) ==> p in x.inserted
    requires forall p :: p in mem <==> p == [] || Leads(x, p)
    requires forall p :: p in free <==> p == [] || StoredAt(x, p) || LockFreeTrie.Parental(x.inserted, p)
    ensures mem <= free
    ensures mem == free <==> forall p :: LockFreeTrie.Parental(x.inserted, p) ==> p == [] || Leads(x, p)
  {
    forall p | p in mem ensures p in free {
      if p != [] {
        var q :| p <= q && StoredAt(x, q);
        assert p == q || Above(p, q);
      }
    }
    forall p | StoredAt(x, p) ensures p in mem {
      assert p <= p;
    }
  }

  /** Subscribing and unsubscribing once leaves every level above the filter in the lock-free index, and nothing in
      the simple one: for "a/b" the node "a". */
  method Leftover(filter: string, id: SubId, params: Params) returns (ghost mem: set<Path>, ghost free: set<Path>)
    ensures mem == {[]}
    ensures forall p :: p in free <==> p == [] || Above(p, Split(filter))
    ensures |Split(filter)| > 1 ==> [Split(filter)[0]] in free - mem
  {
    var ops := [Subscribe(filter, id, params), Unsubscribe(filter, Some(id))];
    mem, free := NodesKept(ops, false);
    ghost var x := ApplyAll(ops, Empty);
    NothingLeft(filter, id, params);
    hide Split, ApplyAll, Apply;
    assert forall p :: LockFreeTrie.Parental({Split(filter)}, p) <==> Above(p, Split(filter));
  }

  lemma NothingLeft(filter: string, id: SubId, params: Params)
    ensures ApplyAll([Subscribe(filter, id, params), Unsubscribe(filter, Some(id))], Empty)
              == Index(map[], map[], {Split(filter)})
  {
    var first, second := Subscribe(filter, id, params), Unsubscribe(filter, Some(id));
    var at := Split(filter);
    assert [first, second][1..] == [second] && [second][1..] == [];
    var x := Apply(first, Empty);
    var subs: Subs := map[id := params];
    assert id in subs && SubsAt(Empty.content, at)[id := params] == subs;
    assert x.content == map[at := subs] && x.inserted == {at};
    assert x == Index(map[at := map[id := params]], map[], {at});
    assert SubsAt(x.content, at) - {id} == map[];
    assert x.content - {at} == map[];
    assert ApplyAll([first, second], Empty) == ApplyAll([second], x) == ApplyAll([], Apply(second, x));
  }
}
