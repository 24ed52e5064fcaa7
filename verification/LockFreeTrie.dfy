/** The index of `topics/memLockFree`, for operations that follow one another: the same nodes with counters
    instead of sizes.  A node is taken out when its counters are zero. */
module LockFreeTrie {
  import opened Paths
  import opened Options
  import opened Topics
  import opened Subscriptions
  import opened TrieMaps

  lemma Fewer<V>(m: map<Level, V>, l: Level)
    ensures |m - {l}| <= |m|
  {
  }

  // ---------------------------------------------------------------- which nodes stay

  /** Something has once been stored below the path. */
  ghost predicate Parental(inserted: set<Path>, p: Path) {
    exists q :: q in inserted && Above(p, q)
  }

  /** The nodes are those of the parents there have ever been, the root, and what is stored now, perhaps with one more;
      a node counts children exactly when it has ever had one. */
  ghost predicate History(kids: map<Path, bool>, content: Content, retained: map<Path, Message>,
      inserted: set<Path>, q: Path) {
    && (forall p :: p in kids ==> (kids[p] <==> Parental(inserted, p)))
    && (forall p :: Parental(inserted, p) ==> p in kids)
    && (forall p :: p in kids && p != [] && p != q && !kids[p] ==> p in content || p in retained)
  }

  /** What a walk down to a path changes. */
  ghost predicate Grown(before: map<Path, bool>, kids: map<Path, bool>, path: Path) {
    && (forall p :: p in kids <==> p in before || Above(p, path) || p == path)
    && (forall p :: p in kids ==> (kids[p] <==> Above(p, path) || (p in before && before[p])))
  }

  /** What one step of it changes. */
  function Entered(kids: map<Path, bool>, path: Path, level: Level): map<Path, bool> {
    (if Child(path, level) in kids then kids else kids[Child(path, level) := false])[path := true]
  }

  lemma NotGrown(kids: map<Path, bool>)
    requires [] in kids
    ensures Grown(kids, kids, [])
  {
  }

  lemma GrownStep(before: map<Path, bool>, kids: map<Path, bool>, path: Path, level: Level)
    requires Grown(before, kids, path)
    ensures Grown(before, Entered(kids, path, level), Child(path, level))
  {
    assert forall p :: Above(p, Child(path, level)) <==> Above(p, path) || p == path;
  }

  lemma GrownHistory(before: map<Path, bool>, kids: map<Path, bool>, content: Content, retained: map<Path, Message>,
                     inserted: set<Path>, path: Path)
    requires History(before, content, retained, inserted, []) && Grown(before, kids, path)
    ensures History(kids, content, retained, inserted + {path}, path)
  {
    assert forall p :: Parental(inserted + {path}, p) <==> Parental(inserted, p) || Above(p, path);
  }

  lemma HistorySubs(kids: map<Path, bool>, content: Content, retained: map<Path, Message>, inserted: set<Path>,
                    path: Path, subs: Subs)
    requires History(kids, content, retained, inserted, []) || History(kids, content, retained, inserted, path)
    ensures History(kids, WithSubs(content, path, subs), retained, inserted, path)
    ensures subs != map[] ==> History(kids, WithSubs(content, path, subs), retained, inserted, [])
  {
    WithSubsAt(content, path, subs);
  }

  lemma HistoryRetained(kids: map<Path, bool>, content: Content, retained: map<Path, Message>, inserted: set<Path>,
                        path: Path, m: Option<Message>)
    requires History(kids, content, retained, inserted, []) || History(kids, content, retained, inserted, path)
    ensures History(kids, content, WithRetained(retained, path, m), inserted, path)
    ensures m != None ==> History(kids, content, WithRetained(retained, path, m), inserted, [])
  {
    WithRetainedAt(retained, path, m);
  }

  lemma HistoryCleaned(kids: map<Path, bool>, content: Content, retained: map<Path, Message>, inserted: set<Path>,
                       path: Path, gone: bool)
    requires History(kids, content, retained, inserted, path) && path in kids
    requires gone <==> path !in content && path !in retained && !kids[path]
    ensures History(kids - (if gone then {path} else {}), content, retained, inserted, [])
  {
  }

  class Node {
    var retained: Option<Message>
    var subs: Subs
    var children: map<Level, Node>
    var kidsCount: int
    var subsCount: int
    var remove: bool
    const parent: Node?
    ghost const path: Path

    constructor (parent: Node?, ghost path: Path)
      ensures this.parent == parent && this.path == path
      ensures subs == map[] && children == map[] && retained == None
      ensures kidsCount == 0 && subsCount == 0 && !remove
    {
      this.parent, this.path := parent, path;
      subs, children, retained := map[], map[], None;
      kidsCount, subsCount, remove := 0, 0, false;
    }

    /** subsCount is the number of subscribers and a surplus; kidsCount does not fall below the number of
        children; the node is not marked for removal. */
    ghost predicate Counted(surplus: int)
      reads `subs, `children, `kidsCount, `subsCount, `remove
    {
      subsCount == |subs| + surplus && kidsCount >= |children| && !remove
    }
  }

  // ---------------------------------------------------------------- edges

  /** Every node but the root stands among its parent's children, and nothing else does. */
  ghost predicate Linkage(tree: map<Path, Node>, kin: map<Path, map<Level, Node>>) {
    && (forall p :: p in tree <==> p in kin)
    && (forall p {:trigger Parent(p)} :: p in tree && p != [] ==>
          Parent(p) in tree && tree[p].parent == tree[Parent(p)] && Last(p) in kin[Parent(p)])
    && (forall p, l :: p in kin && l in kin[p] ==> Child(p, l) in tree && kin[p][l] == tree[Child(p, l)])
  }

  type Kinship = map<Path, map<Level, Node>>

  function WithEdge(kin: Kinship, path: Path, level: Level, child: Node): Kinship
    requires path in kin
  {
    kin[path := kin[path][level := child]][Child(path, level) := map[]]
  }

  lemma LinkKin(tree: map<Path, Node>, kin: map<Path, map<Level, Node>>, path: Path, level: Level, child: Node)
    requires Linkage(tree, kin) && path in tree && level !in kin[path] && child.parent == tree[path]
    ensures Child(path, level) !in tree && Linkage(tree[Child(path, level) := child], WithEdge(kin, path, level, child))
  {
    ChildParts(path, level);
    var t, k := tree[Child(path, level) := child], WithEdge(kin, path, level, child);
    forall q, l | q in k && l in k[q] ensures Child(q, l) in t && k[q][l] == t[Child(q, l)] {
      ChildParts(q, l);
    }
    forall q | q in t && q != []
      ensures Parent(q) in t && t[q].parent == t[Parent(q)] && Last(q) in k[Parent(q)]
    {
      PathParts(q);
    }
  }

  class Provider {
    const root: Node
    const overlapping: bool
    /** The paths handed to the clean-unsubscribe callback, in order. */
    var cleaned: seq<Path>
    ghost var tree: map<Path, Node>
    /** All nodes ever linked, and those that are in the trie now. */
    ghost var repr: set<Node>
    ghost var live: set<Node>
    ghost var content: Content
    ghost var retained: map<Path, Message>
    /** Where anything has ever been stored. */
    ghost var inserted: set<Path>

    ghost predicate Linked()
      reads `tree, `repr, `live, repr`children
    {
      Placed() && Edges()
    }

    /** The nodes that are in the trie stand where the index says. */
    ghost predicate Placed()
      reads `tree, `repr, `live
    {
      && live <= repr
      && (forall n :: n in live ==> n.path in tree && tree[n.path] == n)
      && (forall p :: p in tree ==> tree[p] in live)
      && [] in tree && tree[[]] == root
      && (forall p :: p in tree ==> tree[p] in repr && tree[p].path == p)
      && root.parent == null
    }

    /** Every node but the root stands among its parent's children, and nothing else does. */
    ghost predicate Edges()
      reads `tree, `repr, repr`children
    {
      EdgesOf(tree, repr)
    }

    ghost predicate EdgesOf(tree: map<Path, Node>, repr: set<Node>)
      reads repr`children
    {
      && (forall p :: p in tree ==> tree[p] in repr)
      && (forall p {:trigger Parent(p)} {:trigger tree[p].parent} :: p in tree && p != [] ==>
          Parent(p) in tree && tree[p].parent == tree[Parent(p)])
      && (forall p, l :: p in tree && l in tree[p].children ==>
          Child(p, l) in tree && tree[p].children[l] == tree[Child(p, l)])
      && (forall p {:trigger Parent(p)} :: p in tree && p != [] ==> Last(p) in tree[Parent(p)].children)
    }

    ghost predicate HoldsSubs()
      reads `tree, `repr, `content, repr`subs
    {
      && (forall p :: p in tree ==> tree[p] in repr && tree[p].path == p && tree[p].subs == SubsAt(content, p))
      && (forall p :: p in content ==> p in tree && p != [])
      && Proper(content)
    }

    ghost predicate HoldsRetained()
      reads `tree, `repr, `retained, repr`retained
    {
      && (forall p :: p in tree ==> tree[p] in repr && tree[p].path == p && tree[p].retained == RetainedAt(retained, p))
      && (forall p :: p in retained ==> p in tree && p != [])
    }

    /** Every node in the trie is counted exactly, but for a surplus at one of them. */
    ghost predicate Counted(at: Node, surplus: int)
      reads `repr, `live, repr`subs, repr`children, repr`kidsCount, repr`subsCount, repr`remove
    {
      live <= repr && forall n :: n in live ==> n.Counted(if n == at then surplus else 0)
    }

    ghost predicate Stored()
      reads `tree, `repr, `live, `content, `retained, repr`children, repr`subs, repr`retained
    {
      Linked() && HoldsSubs() && HoldsRetained()
    }

    ghost predicate Valid()
      reads `tree, `repr, `live, `content, `retained, repr
    {
      Stored() && Counted(root, 0)
    }

    /** The nodes, and whether they count children. */
    ghost function Kids(): map<Path, bool>
      reads `tree, `repr, repr`kidsCount
    {
      map p | p in tree && tree[p] in repr :: tree[p].kidsCount > 0
    }

    ghost predicate KeptExcept(q: Path)
      reads `tree, `repr, `content, `retained, `inserted, repr`kidsCount
    {
      History(Kids(), content, retained, inserted, q)
    }

    ghost predicate Kept()
      reads `tree, `repr, `content, `retained, `inserted, repr`kidsCount
    {
      KeptExcept([])
    }

    lemma RootFacts()
      requires Linked()
      ensures [] in tree && tree[[]] == root && root in repr
    {
    }

    lemma NodeFacts(path: Path)
      requires Linked() && path in tree
      ensures tree[path] in live && tree[path].path == path
    {
    }

    lemma ChildFacts(path: Path, l: Level)
      requires Linked() && path in tree && l in tree[path].children
      ensures Child(path, l) in tree && tree[path].children[l] == tree[Child(path, l)]
      ensures tree[Child(path, l)] in live && tree[Child(path, l)] in repr && tree[Child(path, l)] != tree[path]
    {
    }

    constructor (overlapping: bool)
      ensures Valid() && Kept() && fresh(repr) && inserted == {}
      ensures content == map[] && retained == map[] && cleaned == [] && this.overlapping == overlapping
    {
      hide Linked, HoldsSubs, HoldsRetained, Counted, Kids, History;
      this.overlapping := overlapping;
      var r := new Node(null, []);
      root := r;
      cleaned := [];
      tree, repr, live := map[[] := r], {r}, {r};
      content, retained, inserted := map[], map[], {};
      new;
      NothingStored();
    }

    /** The maps that the nodes stand for, and where anything has ever been stored. */
    ghost predicate Stands(c: Content, m: map<Path, Message>, i: set<Path>)
      reads `content, `retained, `inserted
    {
      content == c && retained == m && inserted == i
    }

    lemma StandsNow()
      ensures forall c, m, i :: Stands(c, m, i) <==> content == c && retained == m && inserted == i
    {
    }

    /** Which nodes there are, after any operations. */
    lemma NodesAreParents()
      requires Valid() && Kept()
      ensures forall p :: p in tree <==> p == [] || p in content || p in retained || Parental(inserted, p)
    {
    }

    lemma NothingStored()
      requires tree == map[[] := root] && repr == {root} && live == {root} && root.path == [] && root.parent == null
      requires root.kidsCount == 0 && root.subsCount == 0 && root.subs == map[] && root.children == map[]
      requires root.retained == None && !root.remove && content == map[] && retained == map[] && inserted == {}
      ensures Valid() && Kept()
    {
      assert Kids() == map[[] := false];
    }

    // -------------------------------------------------------------- walking down

    lemma KidsFacts()
      requires Linked()
      ensures Kids().Keys == tree.Keys && forall p :: p in tree ==>
                tree[p] in repr && Kids()[p] == (tree[p].kidsCount > 0)
    {
    }

    /** The reached node is returned with its subsCount one too high; the caller settles it. */
    method LeafInsertNode(levels: Path) returns (leaf: Node)
      requires Valid() && levels != []
      modifies this`tree, this`repr, this`live, this`inserted, repr`children, repr`kidsCount, repr`subsCount
      ensures Stored() && Counted(leaf, 1) && fresh(repr - old(repr))
      ensures inserted == old(inserted) + {levels} && (old(Kept()) ==> KeptExcept(levels))
      ensures levels in tree && tree[levels] == leaf
    {
      hide Linked, HoldsSubs, HoldsRetained, Counted, Kids, Grown, Entered, History;
      leaf := root;
      RootFacts();
      KidsFacts();
      NotGrown(Kids());
      for i := 0 to |levels|
        invariant Stored() && Counted(leaf, if i == |levels| then 1 else 0)
        invariant fresh(repr - old(repr)) && leaf in repr && inserted == old(inserted)
        invariant Grown(old(Kids()), Kids(), levels[..i])
        invariant levels[..i] in tree && tree[levels[..i]] == leaf
      {
        PrefixStep(levels, i);
        NoSurplus(leaf, root);
        GrownStep(old(Kids()), Kids(), levels[..i], levels[i]);
        leaf := StepDown(leaf, levels[..i], levels[i], i == |levels| - 1);
      }
      assert levels[..|levels|] == levels;
      inserted := inserted + {levels};
      if old(Kept()) {
        GrownHistory(old(Kids()), Kids(), content, retained, old(inserted), levels);
      }
    }

    lemma OnlyHere(n: Node, path: Path)
      requires Linked() && path in tree && tree[path] == n
      ensures forall p :: p in tree && tree[p] == n ==> p == path
    {
    }

    /** A node with a child counts it. */
    lemma HasKid(n: Node, level: Level)
      requires Counted(root, 0) && n in live && level in n.children
      ensures n.kidsCount > 0
    {
      assert n.Counted(0) && level in n.children.Keys;
    }

    lemma NoSurplus(m: Node, n: Node)
      ensures Counted(m, 0) <==> Counted(n, 0)
    {
    }

    /** One level of the walk. */
    method StepDown(n: Node, ghost path: Path, level: Level, last: bool) returns (child: Node)
      requires Valid() && path in tree && tree[path] == n
      modifies this`tree, this`repr, this`live, n`children, n`kidsCount, repr`subsCount
      ensures Stored() && Counted(child, if last then 1 else 0) && Kids() == Entered(old(Kids()), path, level)
      ensures Child(path, level) in tree && tree[Child(path, level)] == child && child in repr
      ensures repr == old(repr) || (fresh(child) && repr == old(repr) + {child})
    {
      hide Linked, HoldsSubs, HoldsRetained, Counted, Kids;
      NodeFacts(path);
      KidsFacts();
      if level in n.children {
        ChildFacts(path, level);
        HasKid(n, level);
        child := n.children[level];
        Enter(n, child, last);
      } else {
        child := EnterNew(n, path, level, last);
      }
    }

    /** The child was there.  The retry of the original is never taken: the node found is not marked. */
    method Enter(n: Node, child: Node, last: bool)
      requires Stored() && Counted(root, 0) && n in live && child in live && n != child
      modifies n`kidsCount, child`subsCount
      ensures Stored() && Counted(child, if last then 1 else 0) && Kids() == old(Kids())
    {
      hide Stored, Kids;
      assert n in repr && child in repr && child.Counted(0);
      Visit(n, child);
      if !last {
        child.subsCount := child.subsCount - 1;
      }
    }

    /** In this order: the node counts a child that it may have to store, the child a subscriber that it may get, and
        the node takes its count back. */
    method Visit(n: Node, child: Node)
      requires n != child && !child.remove
      modifies n`kidsCount, child`subsCount
      ensures n.kidsCount == old(n.kidsCount) && child.subsCount == old(child.subsCount) + 1
    {
      n.kidsCount := n.kidsCount + 1;
      child.subsCount := child.subsCount + 1;
      n.kidsCount := n.kidsCount - 1;
      assert !child.remove;
    }

    /** The child is stored now. */
    method EnterNew(n: Node, ghost path: Path, level: Level, last: bool) returns (child: Node)
      requires Stored() && Counted(root, 0) && path in tree && tree[path] == n && n in live && level !in n.children
      modifies this`tree, this`repr, this`live, n`children, n`kidsCount
      ensures Stored() && Counted(child, if last then 1 else 0) 
      ensures Kids() == old(Kids())[Child(path, level) := false][path := true]
      ensures fresh(child) && repr == old(repr) + {child} && live == old(live) + {child}
      ensures Child(path, level) !in old(tree) && tree == old(tree)[Child(path, level) := child]
    {
      hide Linked, HoldsSubs, HoldsRetained, Counted;
      OnlyHere(n, path);
      ChildParts(path, level);
      child := StoreChild(n, path, level);
      KidsFacts();
      assert Kids() == old(Kids())[Child(path, level) := false][path := true];
      CountIn(child, last);
    }

    method StoreChild(n: Node, ghost path: Path, level: Level) returns (child: Node)
      requires Stored() && Counted(root, 0) && path in tree && tree[path] == n && n in live && level !in n.children
      modifies this`tree, this`repr, this`live, n`children, n`kidsCount
      ensures Stored() && Counted(root, 0) && n.kidsCount > 0 && child.kidsCount == 0
      ensures fresh(child) && repr == old(repr) + {child} && live == old(live) + {child}
      ensures Child(path, level) !in old(tree) && tree == old(tree)[Child(path, level) := child]
    {
      hide Linked, HoldsSubs, HoldsRetained;
      n.kidsCount := n.kidsCount + 1;
      child := AddChild(n, path, level);
      assert n.Counted(0);
    }

    method CountIn(child: Node, last: bool)
      requires Stored() && Counted(root, 0) && child in live
      modifies child`subsCount
      ensures Stored() && Counted(child, if last then 1 else 0) && Kids() == old(Kids())
    {
      hide Stored, Kids;
      child.subsCount := child.subsCount + 1;
      if !last {
        child.subsCount := child.subsCount - 1;
      }
    }

    method AddChild(n: Node, ghost path: Path, level: Level) returns (child: Node)
      requires Stored() && path in tree && tree[path] == n && level !in n.children
      modifies this`tree, this`repr, this`live, n`children
      ensures Stored() && fresh(child) && repr == old(repr) + {child} && live == old(live) + {child}
      ensures n.children == old(n.children)[level := child]
      ensures Child(path, level) !in old(tree) && tree == old(tree)[Child(path, level) := child]
      ensures child.kidsCount == 0 && child.subsCount == 0 && !child.remove && child.children == map[] &&
                child.subs == map[] && child.path == Child(path, level)
    {
      hide Linked;
      ghost var at := Child(path, level);
      child := new Node(n, at);
      LinkChild(n, path, level, child);
      HoldsMore(old(tree), at, child);
    }

    /** A new node without data at a path that had none. */
    lemma HoldsMore(before: map<Path, Node>, at: Path, child: Node)
      requires at !in before && tree == before[at := child] && child in repr && child.path == at
      requires child.subs == map[] && child.retained == None
      requires forall p :: p in before ==>
                 before[p] in repr && before[p].path == p && before[p].subs == SubsAt(content, p) &&
                 before[p].retained == RetainedAt(retained, p)
      requires (forall p :: p in content ==> p in before && p != []) && Proper(content)
      requires forall p :: p in retained ==> p in before && p != []
      ensures HoldsSubs() && HoldsRetained()
    {
    }

    method LinkChild(n: Node, ghost path: Path, level: Level, child: Node)
      requires Linked() && path in tree && tree[path] == n && level !in n.children
      requires child.path == Child(path, level) && child.parent == n && child.children == map[] && child !in repr
      modifies this`tree, this`repr, this`live, n`children
      ensures Linked() && repr == old(repr) + {child} && live == old(live) + {child} &&
                n.children == old(n.children)[level := child]
      ensures Child(path, level) !in old(tree) && tree == old(tree)[Child(path, level) := child]
    {
      ChildParts(path, level);
      LinkEdges(n, path, level, child);
      assert child.path !in old(tree);
      hide Edges;
      tree, repr, live := tree[Child(path, level) := child], repr + {child}, live + {child};
    }

    /** What linking a child does to the edges, before the index knows of it. */
    method LinkEdges(n: Node, ghost path: Path, level: Level, child: Node)
      requires Linked() && path in tree && tree[path] == n && level !in n.children
      requires child.path == Child(path, level) && child.parent == n && child.children == map[] && child !in repr
      modifies n`children
      ensures Placed() && n.children == old(n.children)[level := child] && Child(path, level) !in tree
      ensures EdgesOf(tree[Child(path, level) := child], repr + {child})
    {
      ChildParts(path, level);
      OnlyHere(n, path);
      NodeFacts(path);
      ghost var before := Kin();
      KinFacts();
      assert before[path] == n.children;
      LinkKin(tree, before, path, level, child);
      assert Child(path, level) !in tree;
      n.children := n.children[level := child];
      hide Placed, Edges, Linkage, Kin;
      FromKin(tree[Child(path, level) := child], repr + {child}, WithEdge(before, path, level, child));
    }

    ghost function Kin(): map<Path, map<Level, Node>>
      reads `tree, `repr, repr`children
    {
      map p | p in tree && tree[p] in repr :: tree[p].children
    }

    lemma KinFacts()
      requires Edges()
      ensures Linkage(tree, Kin())
      ensures forall p :: p in tree ==> p in Kin() && tree[p] in repr && Kin()[p] == tree[p].children
    {
    }

    lemma FromKin(tree: map<Path, Node>, repr: set<Node>, kin: map<Path, map<Level, Node>>)
      requires Linkage(tree, kin) && forall p :: p in tree ==> tree[p] in repr && kin[p] == tree[p].children
      ensures EdgesOf(tree, repr)
    {
    }

    lemma {:induction false} PrefixInTree(p: Path, k: nat)
      requires Linked() && p in tree && k <= |p|
      ensures p[..k] in tree
      decreases |p| - k
    {
      if k < |p| {
        PrefixInTree(p, k + 1);
        PrefixStep(p, k);
        assert Parent(p[..k + 1]) == p[..k];
      } else {
        assert p[..k] == p;
      }
    }

    /** A level missing below a prefix of a path keeps the whole path out. */
    lemma NotBelow(p: Path, k: nat)
      requires Linked() && k < |p| && p[..k] in tree && p[k] !in tree[p[..k]].children
      ensures p !in tree
    {
      ChildParts(p[..k], p[k]);
      PrefixStep(p, k);
      assert Child(p[..k], p[k]) !in tree;
      if p in tree { PrefixInTree(p, k + 1); }
    }

    method LeafSearchNode(levels: Path) returns (leaf: Node?)
      requires Valid()
      ensures leaf == null <==> levels !in tree
      ensures leaf != null ==> tree[levels] == leaf
    {
      leaf := root;
      for i := 0 to |levels|
        invariant leaf != null && levels[..i] in tree && tree[levels[..i]] == leaf
      {
        var level := levels[i];
        PrefixStep(levels, i);
        if level !in leaf.children {
          NotBelow(levels, i);
          leaf := null;
          return;
        }
        leaf := leaf.children[level];
      }
      assert levels[..|levels|] == levels;
    }

    // -------------------------------------------------------------- cleaning up

    /** Takes a childless node out of its parent's children. */
    method Detach(n: Node, parent: Node, ghost path: Path, level: Level)
      requires Linked() && path in tree && tree[path] == n && path != [] && tree[Parent(path)] == parent &&
                 Last(path) == level
      requires n.children == map[]
      modifies this`tree, this`live, parent`children
      ensures Linked() && tree == old(tree) - {path} && live == old(live) - {n}
      ensures parent.children == old(parent.children) - {level}
    {
      parent.children := parent.children - {level};
      tree, live := tree - {path}, live - {n};
      PathParts(path);
      forall q, l | q in tree && l in tree[q].children
        ensures Child(q, l) in tree && tree[q].children[l] == tree[Child(q, l)]
      {
        ChildParts(q, l);
      }
      forall q | q in tree && q != []
        ensures Parent(q) in tree && tree[q].parent == tree[Parent(q)] && Last(q) in tree[Parent(q)].children
      {
        PathParts(q);
      }
    }

    lemma EmptyByCount(n: Node)
      requires Counted(root, 0) && n in live && n.subsCount == 0 && n.kidsCount == 0
      ensures n.subs == map[] && n.children == map[]
    {
    }

    lemma WithoutData(path: Path)
      requires Stored() && path in tree && tree[path].subs == map[] && tree[path].retained == None
      ensures path !in content && path !in retained
    {
    }

    lemma ParentFacts(path: Path)
      requires Linked() && path in tree && path != []
      ensures Parent(path) in tree && tree[path].parent == tree[Parent(path)]
      ensures tree[Parent(path)] in live && tree[Parent(path)] in repr && tree[Parent(path)] != tree[path]
      ensures Last(path) in tree[Parent(path)].children
    {
    }

    method Unlink(n: Node, parent: Node, path: Path)
      requires Stored() && path != [] && path in tree && tree[path] == n && Parent(path) in tree &&
                 tree[Parent(path)] == parent
      requires n.children == map[] && path !in content && path !in retained
      modifies this`tree, this`live, parent`children
      ensures Stored() && tree == old(tree) - {path} && live == old(live) - {n}
      ensures parent.children == old(parent.children) - {Last(path)}
    {
      Detach(n, parent, path, Last(path));
    }

    ghost predicate OthersCounted(n: Node)
      reads `repr, `live, repr
    {
      live <= repr && forall k :: k in live && k != n ==> k.Counted(0)
    }

    method MarkRemoved(n: Node, path: Path)
      requires Valid()
      modifies n`remove, this`cleaned
      ensures Stored() && OthersCounted(n) && cleaned == old(cleaned) + [path]
    {
      hide Stored;
      n.remove := true;
      cleaned := cleaned + [path];
    }

    lemma ToClean(n: Node, path: Path)
      requires Valid() && path in tree && tree[path] == n && path != []
      requires n.subsCount == 0 && n.kidsCount == 0 && n.retained == None
      ensures n in live && n in repr && n.children == map[] && path !in content && path !in retained
      ensures Parent(path) in tree && n.parent == tree[Parent(path)] && n.parent in live && n.parent in repr
      ensures n.parent != n && Last(path) in tree[Parent(path)].children
    {
      hide HoldsSubs, HoldsRetained, Parent, Last, Counted;
      NodeFacts(path);
      ParentFacts(path);
      EmptyByCount(n);
      WithoutData(path);
    }

    /** A node that its counters call empty is taken out. */
    method CleanNode(n: Node, path: Path)
      requires Valid() && path in tree && tree[path] == n && path != []
      requires n.subsCount == 0 && n.kidsCount == 0 && n.retained == None
      modifies this`tree, this`live, this`cleaned, n`remove, n.parent`children
      ensures Valid() && cleaned == old(cleaned) + [path]
      ensures tree == old(tree) - {path} && live == old(live) - {n}
    {
      hide Stored, Linked, Parent, Last;
      ToClean(n, path);
      var parent: Node := n.parent;
      Fewer(parent.children, Last(path));
      MarkRemoved(n, path);
      Unlink(n, parent, path);
      forall k | k in live ensures k in repr && k.Counted(0) {
        assert k in old(live) && old(k.Counted(0)) && k != n;
        if k != parent {
          assert k.children == old(k.children);
        }
      }
    }

    lemma UpFrom(levels: Path, level: nat)
      requires Valid() && level <= |levels| && levels[..level] in tree
      ensures tree[levels[..level]] in live && tree[levels[..level]] in repr
      ensures level == 0 ==> levels[..level] == [] && tree[levels[..level]] == root && root.parent == null
      ensures level > 0 ==> levels[..level] != [] && Parent(levels[..level]) == levels[..level - 1]
                            && levels[..level - 1] in tree && tree[levels[..level]].parent == tree[levels[..level - 1]]
                            && tree[levels[..level - 1]] in repr && levels[..level - 1] != levels[..level]
                            && tree[levels[..level - 1]].kidsCount > 0
    {
      hide HoldsSubs, HoldsRetained, Counted, Parent, Last;
      AtLevel(levels, level);
      if level > 0 {
        Parting(levels, level);
        ParentFacts(levels[..level]);
        HasKid(tree[levels[..level - 1]], Last(levels[..level]));
      }
    }

    lemma AtLevel(levels: Path, level: nat)
      requires Linked() && level <= |levels| && levels[..level] in tree
      ensures tree[levels[..level]] in live && tree[levels[..level]] in repr
      ensures level == 0 ==> levels[..level] == [] && tree[levels[..level]] == root && root.parent == null
      ensures level > 0 ==> levels[..level - 1] != levels[..level]
    {
    }

    /** Detaches the leaf exactly when it is empty and never had a child; every node above it has had one and stays, and
        the callback is told of the leaf alone. */
    method NodesCleanup(leaf: Node, levels: Path)
      requires Valid() && levels != [] && levels in tree && tree[levels] == leaf
      modifies this`tree, this`live, this`cleaned, repr`remove, repr`children
      ensures Valid() && (old(KeptExcept(levels)) ==> Kept())
      ensures var gone := levels !in content && levels !in retained && leaf.kidsCount == 0;
              && tree == old(tree) - (if gone then {levels} else {})
              && cleaned == old(cleaned) + (if gone then [levels] else [])
    {
      hide Linked, HoldsSubs, HoldsRetained, Counted, History;
      var level: int := |levels|;
      var leafNode: Node? := leaf;
      assert levels[..level] == levels;
      LeafFacts(levels);
      KidsFacts();
      ghost var gone := leaf.subsCount == 0 && leaf.kidsCount == 0 && leaf.retained == None;
      assert Kids()[levels] <==> leaf.kidsCount > 0;
      while leafNode != null
        invariant Valid() && -1 <= level <= |levels|
        invariant leafNode == null <==> level == -1
        invariant leafNode != null ==> levels[..level] in tree && tree[levels[..level]] == leafNode
        invariant leafNode != null && level < |levels| ==> leafNode.kidsCount > 0
        invariant tree == old(tree) - (if gone && level < |levels| then {levels} else {})
        invariant cleaned == old(cleaned) + (if gone && level < |levels| then [levels] else [])
        decreases level
      {
        UpFrom(levels, level);
        if leafNode.subsCount == 0 && leafNode.kidsCount == 0 && leafNode.retained == None {
          CleanNode(leafNode, levels[..level]);
        }
        leafNode := leafNode.parent;
        level := level - 1;
      }
      KidsFacts();
      assert Kids() == old(Kids()) - (if gone then {levels} else {});
      if old(KeptExcept(levels)) {
        HistoryCleaned(old(Kids()), content, retained, inserted, levels, gone);
      }
    }

    lemma LeafFacts(levels: Path)
      requires Valid() && levels in tree
      ensures var n := tree[levels]; n.subsCount == 0 && n.retained == None <==>
                levels !in content && levels !in retained
      ensures tree[levels].kidsCount >= 0
    {
      hide Counted;
      SubsOf(levels);
      CountFacts(tree[levels]);
      hide Linked, HoldsSubs;
      assert tree[levels].retained == RetainedAt(retained, levels);
    }

    lemma CountFacts(n: Node)
      requires Counted(root, 0) && n in live
      ensures n.kidsCount >= 0 && (n.subsCount == 0 <==> n.subs == map[])
    {
      assert n.Counted(0) && (|n.subs| == 0 <==> n.subs == map[]);
    }

    lemma KeptMeanwhile(path: Path)
      requires Kept()
      ensures KeptExcept(path)
    {
    }

    // -------------------------------------------------------------- subscriptions

    method PutSubs(n: Node, ghost path: Path, subs: Subs)
      requires Stored() && path != [] && path in tree && tree[path] == n
      modifies n`subs, this`content
      ensures Stored() && content == WithSubs(old(content), path, subs) && n.subs == subs
      ensures old(Kept() || KeptExcept(path)) ==> KeptExcept(path) && (subs != map[] ==> Kept())
    {
      hide Stored, WithSubs, Kids, History;
      if Kept() || KeptExcept(path) {
        HistorySubs(Kids(), content, retained, inserted, path, subs);
      }
      StoreSubs(n, path, subs);
    }

    method StoreSubs(n: Node, ghost path: Path, subs: Subs)
      requires Stored() && path != [] && path in tree && tree[path] == n
      modifies n`subs, this`content
      ensures Stored() && content == WithSubs(old(content), path, subs) && n.subs == subs
    {
      hide Linked, HoldsRetained, WithSubs, SubsAt, Proper;
      WithSubsAt(content, path, subs);
      assert forall p :: p in tree && p != path ==> tree[p] != n;
      n.subs := subs;
      content := WithSubs(content, path, subs);
    }

    method PutRetained(n: Node, ghost path: Path, m: Option<Message>)
      requires Stored() && path != [] && path in tree && tree[path] == n
      modifies n`retained, this`retained
      ensures Stored() && retained == WithRetained(old(retained), path, m)
      ensures old(Kept() || KeptExcept(path)) ==> KeptExcept(path) && (m != None ==> Kept())
    {
      hide Stored, WithRetained, Kids, History;
      if Kept() || KeptExcept(path) {
        HistoryRetained(Kids(), content, retained, inserted, path, m);
      }
      StoreRetained(n, path, m);
    }

    method StoreRetained(n: Node, ghost path: Path, m: Option<Message>)
      requires Stored() && path != [] && path in tree && tree[path] == n
      modifies n`retained, this`retained
      ensures Stored() && retained == WithRetained(old(retained), path, m)
    {
      hide Linked, HoldsSubs, WithRetained;
      WithRetainedAt(retained, path, m);
      assert forall p :: p in tree && p != path ==> tree[p] != n;
      n.retained := m;
      retained := WithRetained(retained, path, m);
    }

    lemma Absent(path: Path)
      requires Stored() && path !in tree
      ensures SubsAt(content, path) == map[] && RetainedAt(retained, path) == None && retained - {path} == retained
      ensures content == WithSubs(content, path, map[])
    {
    }

    lemma ProperContent()
      requires HoldsSubs()
      ensures Proper(content)
    {
    }

    lemma SubsOf(path: Path)
      requires Stored() && path in tree
      ensures tree[path].subs == SubsAt(content, path) && tree[path] in repr && tree[path] in live
    {
    }

    lemma Subscribing(f: Path, id: SubId, p: Params)
      requires Valid()
      ensures Joined(content, WithSubs(content, f, SubsAt(content, f)[id := p]), f, id, p)
      ensures id in SubsAt(content, f) <==> f in content && id in content[f]
    {
      hide Linked, HoldsRetained;
      PutOne(content, f, id, p);
    }

    lemma Unsubscribing(f: Path, sub: Option<SubId>)
      requires Valid()
      ensures Left(content, WithSubs(content, f, Dropped(SubsAt(content, f), sub)), f, sub)
      ensures forall id :: id in SubsAt(content, f) <==> f in content && id in content[f]
    {
      hide Linked, HoldsRetained;
      DropOne(content, f, sub);
    }

    method SubscriptionInsert(filter: string, id: SubId, p: Params) returns (known: bool)
      requires Valid()
      modifies this, repr
      ensures Valid() && (old(Kept()) ==> Kept()) && fresh(repr - old(repr)) &&
                inserted == old(inserted) + {Split(filter)}
      ensures known <==> Split(filter) in old(content) && id in old(content)[Split(filter)]
      ensures content == WithSubs(old(content), Split(filter), SubsAt(old(content), Split(filter))[id := p])
      ensures Joined(old(content), content, Split(filter), id, p)
      ensures retained == old(retained) && cleaned == old(cleaned)
    {
      hide Linked, HoldsSubs, HoldsRetained, WithSubs, Counted, Kids, History, Joined;
      var levels := Split(filter);
      Subscribing(levels, id, p);
      var leaf := LeafInsertNode(levels);
      SubsOf(levels);
      known := id in leaf.subs;
      if known {
        Settle(leaf, levels, leaf.subs[id := p], -1);
      } else {
        Settle(leaf, levels, leaf.subs[id := p], 0);
      }
    }

    /** Stores the subscribers of a node together with a change of its subsCount that makes it exact. */
    method Settle(n: Node, ghost path: Path, subs: Subs, delta: int)
      requires Stored() && path != [] && path in tree && tree[path] == n && n in live
      requires Counted(n, |subs| - |n.subs| - delta)
      modifies n`subsCount, n`subs, this`content
      ensures Valid() && content == WithSubs(old(content), path, subs) && n.subs == subs
      ensures old(Kept() || KeptExcept(path)) ==> KeptExcept(path) && (subs != map[] ==> Kept())
    {
      hide Linked, HoldsSubs, HoldsRetained, WithSubs, Kids, History;
      n.subsCount := n.subsCount + delta;
      PutSubs(n, path, subs);
    }

    /** None stands for the nil subscriber, which removes all of them. */
    method SubscriptionRemove(topic: string, sub: Option<SubId>) returns (r: Outcome)
      requires Valid()
      modifies this, repr
      ensures Valid() && (old(Kept()) ==> Kept()) && repr == old(repr) && inserted == old(inserted)
      ensures tree == old(tree) || (tree == old(tree) - {Split(topic)} && Split(topic) in old(tree))
      ensures cleaned == old(cleaned) + (if tree == old(tree) then [] else [Split(topic)])
      ensures content == WithSubs(old(content), Split(topic), Dropped(SubsAt(old(content), Split(topic)), sub))
      ensures Left(old(content), content, Split(topic), sub)
      ensures retained == old(retained)
      ensures sub.Some? ==>
                (r == Ok <==> Split(topic) in old(content) && sub.value in old(content)[Split(topic)])
      ensures sub.None? ==> (r == Ok <==> Split(topic) in old(tree))
    {
      hide Valid, Stored, Kept, KeptExcept, WithSubs, SubsAt, Proper, Dropped, Left;
      var levels := Split(topic);
      Unsubscribing(levels, sub);
      var leaf := LeafSearchNode(levels);
      NothingDropped(sub);
      Looked(levels);
      if leaf == null {
        return NotFound;
      }
      r := DropSubs(leaf, levels, sub);
      NodesCleanup(leaf, levels);
    }

    /** What a search for a path comes to. */
    lemma Looked(path: Path)
      requires Valid()
      ensures path in tree ==> tree[path] in repr
      ensures path !in tree ==> SubsAt(content, path) == map[] && content == WithSubs(content, path, map[])
    {
      hide Linked, WithSubs, HoldsRetained;
      if path in tree {
        SubsOf(path);
      } else {
        Absent(path);
      }
    }

    method DropSubs(leaf: Node, levels: Path, sub: Option<SubId>) returns (r: Outcome)
      requires Valid() && levels != [] && levels in tree && tree[levels] == leaf
      modifies leaf`subsCount, leaf`subs, this`content
      ensures Valid() && (old(Kept()) ==> KeptExcept(levels))
      ensures content == WithSubs(old(content), levels, Dropped(SubsAt(old(content), levels), sub))
      ensures sub.Some? ==> (r == Ok <==> sub.value in SubsAt(old(content), levels))
      ensures sub.None? ==> r == Ok
    {
      hide Linked, HoldsSubs, HoldsRetained, WithSubs, Counted, SubsAt, Proper, Kids, History;
      WithSubsTwice(content, levels, map[], map[]);
      ProperContent();
      SubsOf(levels);
      if Kept() {
        KeptMeanwhile(levels);
      }
      r := Ok;
      match sub {
        case None =>
          RemoveAll(leaf, levels);
        case Some(id) =>
          if id in leaf.subs {
            assert |leaf.subs - {id}| == |leaf.subs| - 1;
            NoSurplus(root, leaf);
            Settle(leaf, levels, leaf.subs - {id}, -1);
          } else {
            assert leaf.subs - {id} == leaf.subs;
            r := NotFound;
          }
      }
    }

    method RemoveAll(leaf: Node, levels: Path)
      requires Valid() && levels != [] && levels in tree && tree[levels] == leaf
      modifies leaf`subsCount, leaf`subs, this`content
      ensures Valid() && content == WithSubs(old(content), levels, map[]) && (old(Kept()) ==> KeptExcept(levels))
    {
      hide Linked, HoldsSubs, HoldsRetained, WithSubs, Counted, SubsAt, Proper, Kids, History;
      SubsOf(levels);
      ProperContent();
      var pending := leaf.subs.Keys;
      WithSubsTwice(content, levels, map[], map[]);
      if Kept() {
        KeptMeanwhile(levels);
      }
      while pending != {}
        invariant Valid() && pending == leaf.subs.Keys
        invariant content == WithSubs(old(content), levels, leaf.subs) && (old(Kept()) ==> KeptExcept(levels))
      {
        var key :| key in pending;
        assert |leaf.subs - {key}| == |leaf.subs| - 1;
        NoSurplus(root, leaf);
        WithSubsTwice(old(content), levels, leaf.subs, leaf.subs - {key});
        Settle(leaf, levels, leaf.subs - {key}, -1);
        pending := pending - {key};
      }
      assert leaf.subs == map[];
    }

    // -------------------------------------------------------------- retained messages

    method RetainInsert(topic: string, m: Message)
      requires Valid()
      modifies this, repr
      ensures Valid() && (old(Kept()) ==> Kept()) && fresh(repr - old(repr)) &&
                inserted == old(inserted) + {Split(topic)}
      ensures retained == old(retained)[Split(topic) := m]
      ensures content == old(content) && cleaned == old(cleaned)
    {
      hide Linked, HoldsSubs, HoldsRetained, Counted, Kids, History;
      var levels := Split(topic);
      var leaf := LeafInsertNode(levels);
      SubsOf(levels);
      PutRetained(leaf, levels, Some(m));
      SettleRetained(leaf);
    }

    method SettleRetained(n: Node)
      requires Stored() && Counted(n, 1) && n in live
      modifies n`subsCount
      ensures Valid()
    {
      hide Stored, Kids, History;
      n.subsCount := n.subsCount - 1;
    }

    method RetainRemove(topic: string) returns (r: Outcome)
      requires Valid()
      modifies this, repr
      ensures Valid() && (old(Kept()) ==> Kept()) && repr == old(repr) && inserted == old(inserted)
      ensures tree == old(tree) || (tree == old(tree) - {Split(topic)} && Split(topic) in old(tree))
      ensures cleaned == old(cleaned) + (if tree == old(tree) then [] else [Split(topic)])
      ensures retained == old(retained) - {Split(topic)}
      ensures r == Ok <==> Split(topic) in old(tree)
      ensures content == old(content)
    {
      hide Linked, HoldsSubs, HoldsRetained, Counted, Kids, History;
      var levels := Split(topic);
      var leaf := LeafSearchNode(levels);
      if leaf == null {
        Absent(levels);
        return NotFound;
      }
      SubsOf(levels);
      PutRetained(leaf, levels, None);
      NodesCleanup(leaf, levels);
      r := Ok;
    }

    // -------------------------------------------------------------- topic to filters

    method GetSubscribers(n: Node, ghost path: Path, publisher: SubId, acc: Publishes) returns (r: Publishes)
      requires Valid() && path in tree && tree[path] == n && NonEmpty(acc)
      ensures r == Gather(overlapping, content, [path], publisher, acc)
    {
      hide Linked, HoldsSubs, HoldsRetained;
      SubsOf(path);
      if overlapping {
        r := OverlappingSubscribers(n.subs, publisher, acc);
      } else {
        r := NonOverlappingSubscribers(n.subs, publisher, acc);
      }
    }

    lemma Missing(path: Path, l: Level, fs: seq<Path>, publisher: SubId, acc: Publishes)
      requires Valid() && path in tree && l !in tree[path].children && NonEmpty(acc)
      ensures Gather(overlapping, content, Below(Child(path, l), fs), publisher, acc) == acc
    {
      ChildParts(path, l);
      var ps := Below(Child(path, l), fs);
      forall f | f in ps ensures f !in content {
        assert f[..|path| + 1] == Child(path, l);
        if f in tree { PrefixInTree(f, |path| + 1); }
      }
      GatherNothing(overlapping, content, ps, publisher, acc);
    }

    /** One child of a node, for some remaining levels, if it exists. */
    method SearchChild(n: Node, ghost path: Path, l: Level, levels: Path, publisher: SubId, acc: Publishes)
        returns (r: Publishes)
      requires Valid() && path in tree && tree[path] == n && NonEmpty(acc)
      ensures NonEmpty(r) && r == Gather(overlapping, content, Below(Child(path, l), Filters(levels)), publisher, acc)
      decreases |levels|, 1
    {
      if l in n.children {
        r := RecurseSearch(n.children[l], Child(path, l), levels, publisher, acc);
      } else {
        r := acc;
        Missing(path, l, Filters(levels), publisher, acc);
      }
    }

    method HashChild(n: Node, ghost path: Path, publisher: SubId, acc: Publishes) returns (r: Publishes)
      requires Valid() && path in tree && tree[path] == n && NonEmpty(acc)
      ensures NonEmpty(r) && r == Gather(overlapping, content, [Child(path, MWC)], publisher, acc)
    {
      hide Linked, HoldsSubs, HoldsRetained;
      if MWC in n.children {
        ChildFacts(path, MWC);
        r := GetSubscribers(n.children[MWC], Child(path, MWC), publisher, acc);
        GatherNonEmpty(overlapping, content, [Child(path, MWC)], publisher, acc);
      } else {
        r := acc;
        Missing(path, MWC, [[]], publisher, acc);
        assert Child(path, MWC) + [] == Child(path, MWC);
      }
    }

    method RecurseSearch(n: Node, ghost path: Path, levels: Path, publisher: SubId, acc: Publishes)
        returns (r: Publishes)
      requires Valid() && path in tree && tree[path] == n && NonEmpty(acc)
      ensures NonEmpty(r) && r == Gather(overlapping, content, Below(path, Filters(levels)), publisher, acc)
      decreases |levels|, 0
    {
      hide Valid, Gather, Filters;
      BelowFilters(path, levels);
      GatherNonEmpty(overlapping, content, Below(path, Filters(levels)), publisher, acc);
      if levels == [] {
        r := GetSubscribers(n, path, publisher, acc);
        GatherNonEmpty(overlapping, content, [path], publisher, acc);
        GatherConcat(overlapping, content, [path], [Child(path, MWC)], publisher, acc);
        r := HashChild(n, path, publisher, r);
      } else {
        ghost var hash: seq<Path> := if levels[0] != "" then [Child(path, MWC)] else [];
        ghost var named := Below(Child(path, levels[0]), Filters(levels[1..]));
        ghost var plus := Below(Child(path, SWC), Filters(levels[1..]));
        GatherConcat(overlapping, content, hash + named, plus, publisher, acc);
        GatherConcat(overlapping, content, hash, named, publisher, acc);
        GatherNothing(overlapping, content, [], publisher, acc);
        r := acc;
        if |levels[0]| != 0 {
          r := HashChild(n, path, publisher, r);
        }
        r := SearchChild(n, path, levels[0], levels[1..], publisher, r);
        r := SearchChild(n, path, SWC, levels[1..], publisher, r);
      }
    }

    method SubscriptionSearch(topic: string, publisher: SubId) returns (r: Publishes)
      requires Valid()
      ensures r == Search(overlapping, content, Split(topic), publisher)
    {
      var levels := Split(topic);
      var level := levels[0];
      BelowRoot(Filters(levels));
      BelowRoot(Filters(levels[1..]));
      if !(level != "" && level[0] == '$') {
        r := RecurseSearch(root, [], levels, publisher, map[]);
      } else {
        r := SearchChild(root, [], level, levels[1..], publisher, map[]);
      }
    }
  }
}
