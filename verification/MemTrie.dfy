/** The subscription and retained-message index of `topics/mem`: nodes linked to their parent and, by level,
    to their children, changed in place.  A ghost index from paths to nodes ties the linked structure to
    the plain maps it stands for. */
module MemTrie {
  import opened Paths
  import opened Sequences
  import opened Options
  import opened Topics
  import opened Subscriptions
  import opened TrieMaps

  class Node {
    var retained: Option<Message>
    var subs: Subs
    var parent: Node?
    var children: map<Level, Node>
    ghost const path: Path

    constructor (parent: Node?, ghost path: Path)
      ensures this.parent == parent && subs == map[] && children == map[] && retained == None && this.path == path
    {
      this.parent := parent;
      this.path := path;
      subs, children, retained := map[], map[], None;
    }
  }

  class Provider {
    var root: Node
    const overlapping: bool
    /** The paths handed to the clean-unsubscribe callback, in order. */
    var cleaned: seq<Path>
    /** Which node stands at which path. */
    ghost var tree: map<Path, Node>
    /** All nodes ever linked. */
    ghost var repr: set<Node>
    /** The maps the nodes stand for. */
    ghost var content: Content
    ghost var retained: map<Path, Message>

    ghost predicate Linked()
      reads `root, `tree, `repr, repr`parent, repr`children
    {
      && [] in tree && tree[[]] == root
      && (forall p :: p in tree ==> tree[p] in repr && tree[p].path == p)
      && (forall p {:trigger Parent(p)} {:trigger tree[p].parent} :: p in tree && p != [] ==>
          Parent(p) in tree && tree[p].parent == tree[Parent(p)])
      && (forall p, l :: p in tree && l in tree[p].children ==>
          Child(p, l) in tree && tree[p].children[l] == tree[Child(p, l)])
      && (forall p {:trigger Parent(p)} :: p in tree && p != [] ==> Last(p) in tree[Parent(p)].children)
      && root.parent == null
    }

    /** The nodes hold exactly the map of subscriptions. */
    ghost predicate HoldsSubs()
      reads `tree, `repr, `content, repr`subs
    {
      && (forall p :: p in tree ==> tree[p] in repr && tree[p].path == p && tree[p].subs == SubsAt(content, p))
      && (forall p :: p in content ==> p in tree && p != [])
      && Proper(content)
    }

    /** The nodes hold exactly the map of retained messages. */
    ghost predicate HoldsRetained()
      reads `tree, `repr, `retained, repr`retained
    {
      && (forall p :: p in tree ==> tree[p] in repr && tree[p].path == p && tree[p].retained == RetainedAt(retained, p))
      && (forall p :: p in retained ==> p in tree && p != [])
    }

    ghost predicate Valid()
      reads `root, `tree, `repr, `content, `retained, repr
    {
      Linked() && HoldsSubs() && HoldsRetained()
    }

    /** Every childless node, other than the root and the one at the given path, holds something. */
    ghost predicate PrunedExcept(q: Path)
      reads `tree, `repr, `content, `retained, repr`children
    {
      forall p :: p in tree && p != [] && p != q && tree[p] in repr && tree[p].children == map[] ==>
          p in content || p in retained
    }

    ghost predicate Pruned()
      reads `tree, `repr, `content, `retained, repr`children
    {
      PrunedExcept([])
    }

    constructor (overlapping: bool)
      ensures Valid() && Pruned() && fresh(repr)
      ensures content == map[] && retained == map[] && cleaned == [] && this.overlapping == overlapping
    {
      this.overlapping := overlapping;
      var r := new Node(null, []);
      root := r;
      cleaned := [];
      tree, repr := map[[] := r], {r};
      content, retained := map[], map[];
    }

    // -------------------------------------------------------------- walking down

    method LeafInsertNode(levels: Path) returns (leaf: Node)
      requires Valid()
      modifies this`tree, this`repr, repr`children
      ensures Valid() && fresh(repr - old(repr))
      ensures old(Pruned()) ==> PrunedExcept(levels)
      ensures levels in tree && tree[levels] == leaf
    {
      hide HoldsSubs, HoldsRetained;
      leaf := root;
      for i := 0 to |levels|
        invariant Valid() && fresh(repr - old(repr))
        invariant old(Pruned()) ==> PrunedExcept(levels[..i])
        invariant levels[..i] in tree && tree[levels[..i]] == leaf
      {
        var level := levels[i];
        PrefixStep(levels, i);
        if level in leaf.children {
          leaf := leaf.children[level];
        } else {
          leaf := AddChild(leaf, levels[..i], level);
        }
      }
      assert levels[..|levels|] == levels;
    }

    method AddChild(n: Node, ghost path: Path, level: Level) returns (child: Node)
      requires Valid() && path in tree && tree[path] == n && level !in n.children
      modifies this`tree, this`repr, n`children
      ensures old(PrunedExcept(path)) ==> PrunedExcept(Child(path, level))
      ensures Valid() && fresh(child) && repr == old(repr) + {child}
      ensures tree == old(tree)[Child(path, level) := child]
    {
      child := new Node(n, Child(path, level));
      LinkChild(n, path, level, child);
      assert level in n.children;
    }

    method LinkChild(n: Node, ghost path: Path, level: Level, child: Node)
      requires Linked() && path in tree && tree[path] == n && level !in n.children
      requires child.path == Child(path, level) && child.parent == n && child.children == map[] && child !in repr
      modifies this`tree, this`repr, n`children
      ensures Linked() && repr == old(repr) + {child} && n.children == old(n.children)[level := child]
      ensures Child(path, level) !in old(tree) && tree == old(tree)[Child(path, level) := child]
    {
      n.children := n.children[level := child];
      tree, repr := tree[Child(path, level) := child], repr + {child};
      ChildParts(path, level);
      forall q, l | q in tree && l in tree[q].children
        ensures Child(q, l) in tree && tree[q].children[l] == tree[Child(q, l)]
      {
        ChildParts(q, l);
      }
      forall q | q in tree && q != []
        ensures Parent(q) in tree && tree[q].parent == tree[Parent(q)] && Last(q) in tree[Parent(q)].children
      {
        PathParts(q);
      }
    }

    lemma {:induction false} PrefixInTree(p: Path, k: nat)
      requires Linked() && p in tree && k <= |p|
      ensures p[..k] in tree
      decreases |p| - k
    {
      if k < |p| {
        PrefixInTree(p, k + 1);
        PrefixStep(p, k);
        assert Parent(p[..k + 1]) == p[..k];
      } else {
        assert p[..k] == p;
      }
    }

    /** A level missing below a prefix of a path keeps the whole path out. */
    lemma NotBelow(p: Path, k: nat)
      requires Linked() && k < |p| && p[..k] in tree && p[k] !in tree[p[..k]].children
      ensures p !in tree
    {
      ChildParts(p[..k], p[k]);
      PrefixStep(p, k);
      assert Child(p[..k], p[k]) !in tree;
      if p in tree { PrefixInTree(p, k + 1); }
    }

    method LeafSearchNode(levels: Path) returns (leaf: Node?)
      requires Valid()
      ensures leaf == null <==> levels !in tree
      ensures leaf != null ==> tree[levels] == leaf
    {
      leaf := root;
      for i := 0 to |levels|
        invariant leaf != null && levels[..i] in tree && tree[levels[..i]] == leaf
      {
        var level := levels[i];
        PrefixStep(levels, i);
        if level !in leaf.children {
          NotBelow(levels, i);
          leaf := null;
          return;
        }
        leaf := leaf.children[level];
      }
      assert levels[..|levels|] == levels;
    }

    // -------------------------------------------------------------- pruning

    /** Takes a childless node out of its parent's children. */
    method Detach(n: Node, parent: Node, ghost path: Path, level: Level)
      requires Linked() && path in tree && tree[path] == n && path != [] && tree[Parent(path)] == parent &&
                 Last(path) == level
      requires n.children == map[]
      modifies this`tree, parent`children
      ensures Linked() && tree == old(tree) - {path}
      ensures parent.children == old(parent.children) - {level}
    {
      parent.children := parent.children - {level};
      tree := tree - {path};
      PathParts(path);
      forall q, l | q in tree && l in tree[q].children
        ensures Child(q, l) in tree && tree[q].children[l] == tree[Child(q, l)]
      {
        ChildParts(q, l);
      }
      forall q | q in tree && q != []
        ensures Parent(q) in tree && tree[q].parent == tree[Parent(q)] && Last(q) in tree[Parent(q)].children
      {
        PathParts(q);
      }
    }

    predicate Empty(n: Node)
      reads n
    {
      n.subs == map[] && n.children == map[] && n.retained == None
    }

    /** Takes an empty node out of the trie. */
    method RemoveEmpty(n: Node, parent: Node, path: Path)
      requires Valid() && path != [] && path in tree && tree[path] == n
      requires Empty(n) && tree[Parent(path)] == parent
      modifies this`tree, parent`children
      ensures Valid() && tree == old(tree) - {path}
      ensures old(PrunedExcept(path)) ==> PrunedExcept(Parent(path))
    {
      assert path !in content && path !in retained;
      Detach(n, parent, path, Last(path));
    }

    lemma NotEmptyHere(path: Path)
      requires Valid() && path in tree && PrunedExcept(path) && !Empty(tree[path])
      ensures Pruned()
    {
    }

    lemma UpFrom(levels: Path, level: nat)
      requires Valid() && level <= |levels| && levels[..level] in tree
      ensures tree[levels[..level]] in repr
      ensures level == 0 ==> tree[levels[..level]].parent == null
      ensures level > 0 ==> levels[..level] != [] && Parent(levels[..level]) == levels[..level - 1]
                            && levels[..level - 1] in tree && tree[levels[..level]].parent == tree[levels[..level - 1]]
                            && tree[levels[..level - 1]] in repr && !Empty(tree[levels[..level - 1]])
    {
    }

    /** Walks from a node up to the root and takes out every node that has become empty. */
    method PruneUp(leaf: Node, levels: Path, notify: bool) returns (ghost kept: int)
      requires Valid() && levels in tree && tree[levels] == leaf
      modifies this`tree, this`cleaned, repr`children
      ensures Valid() && (old(PrunedExcept(levels)) ==> Pruned())
      ensures -1 <= kept <= |levels| && tree == old(tree) - Removed(levels, |levels|, kept)
      ensures cleaned == old(cleaned) + Notices(notify, levels, |levels|, kept)
    {
      hide Valid, Linked, HoldsSubs, HoldsRetained, PrunedExcept, Removed, Notices;
      var level: int := |levels|;
      var leafNode: Node? := leaf;
      kept := level;
      NothingYet(tree, cleaned, notify, levels);
      assert levels[..level] == levels;
      while leafNode != null
        invariant Valid() && -1 <= level <= kept <= |levels|
        invariant leafNode == null <==> level == -1
        invariant leafNode != null ==> levels[..level] in tree && tree[levels[..level]] == leafNode
        invariant old(PrunedExcept(levels)) && level == kept && level >= 0 ==> PrunedExcept(levels[..level])
        invariant old(PrunedExcept(levels)) && (level < kept || level == -1) ==> Pruned()
        invariant 0 <= level < kept ==> !Empty(leafNode)
        invariant tree == old(tree) - Removed(levels, |levels|, kept)
        invariant cleaned == old(cleaned) + Notices(notify, levels, |levels|, kept)
        decreases level
      {
        UpFrom(levels, level);
        if leafNode.subs == map[] && leafNode.children == map[] && leafNode.retained == None {
          if notify {
            cleaned := cleaned + [levels[..level]];
          }
          if leafNode.parent != null {
            RemoveEmpty(leafNode, leafNode.parent, levels[..level]);
          }
          kept := level - 1;
          RemovedStep(old(tree), levels, |levels|, kept);
          NoticesStep(old(cleaned), notify, levels, |levels|, kept);
        } else if level == kept && old(PrunedExcept(levels)) {
          NotEmptyHere(levels[..level]);
        }
        leafNode := leafNode.parent;
        level := level - 1;
      }
    }

    // -------------------------------------------------------------- subscriptions

    /** Stores new data at a node that is already in the trie. */
    method PutSubs(n: Node, ghost path: Path, subs: Subs)
      requires Valid() && path != [] && path in tree && tree[path] == n
      modifies n`subs, this`content
      ensures Valid() && content == WithSubs(old(content), path, subs)
      ensures old(Pruned()) ==> PrunedExcept(path)
      ensures old(PrunedExcept(path)) && subs != map[] ==> Pruned()
    {
      hide Linked, HoldsRetained, WithSubs, SubsAt, Proper;
      WithSubsAt(content, path, subs);
      assert forall p :: p in tree && p != path ==> tree[p] != n;
      n.subs := subs;
      content := WithSubs(content, path, subs);
    }

    method PutRetained(n: Node, ghost path: Path, m: Option<Message>)
      requires Valid() && path != [] && path in tree && tree[path] == n
      modifies n`retained, this`retained
      ensures Valid() && retained == WithRetained(old(retained), path, m)
      ensures old(Pruned()) ==> PrunedExcept(path)
      ensures old(PrunedExcept(path)) && m != None ==> Pruned()
    {
      hide Linked, HoldsSubs, WithRetained;
      n.retained := m;
      WithRetainedAt(retained, path, m);
      retained := WithRetained(retained, path, m);
    }

    lemma Subscribing(f: Path, id: SubId, p: Params)
      requires Valid()
      ensures Joined(content, WithSubs(content, f, SubsAt(content, f)[id := p]), f, id, p)
      ensures id in SubsAt(content, f) <==> f in content && id in content[f]
    {
      hide Linked, HoldsRetained;
      PutOne(content, f, id, p);
    }

    lemma Unsubscribing(f: Path, sub: Option<SubId>)
      requires Valid()
      ensures Left(content, WithSubs(content, f, Dropped(SubsAt(content, f), sub)), f, sub)
      ensures forall id :: id in SubsAt(content, f) <==> f in content && id in content[f]
    {
      hide Linked, HoldsRetained;
      DropOne(content, f, sub);
    }

    method SubscriptionInsert(filter: string, id: SubId, p: Params) returns (known: bool)
      requires Valid()
      modifies this, repr
      ensures Valid() && (old(Pruned()) ==> Pruned()) && fresh(repr - old(repr))
      ensures known <==> Split(filter) in old(content) && id in old(content)[Split(filter)]
      ensures content == WithSubs(old(content), Split(filter), SubsAt(old(content), Split(filter))[id := p])
      ensures Joined(old(content), content, Split(filter), id, p)
      ensures retained == old(retained) && cleaned == old(cleaned)
    {
      hide Linked, PrunedExcept, WithSubs, Joined;
      var levels := Split(filter);
      Subscribing(levels, id, p);
      var leaf := LeafInsertNode(levels);
      known := id in leaf.subs;
      assert leaf.subs == SubsAt(content, levels) && leaf.subs[id := p] != map[];
      PutSubs(leaf, levels, leaf.subs[id := p]);
    }

    lemma Unchanged(path: Path, id: SubId)
      requires Valid() && id !in SubsAt(content, path)
      ensures Pruned() ==> PrunedExcept(path)
      ensures content == WithSubs(content, path, SubsAt(content, path) - {id})
    {
      assert SubsAt(content, path) - {id} == SubsAt(content, path);
    }

    /** None stands for the nil subscriber, which removes all of them.  The callback is told of exactly the nodes taken
        out, from the leaf upwards, and of the root when nothing at all is left. */
    method SubscriptionRemove(topic: string, sub: Option<SubId>) returns (r: Outcome, ghost kept: int)
      requires Valid()
      modifies this, repr
      ensures Valid() && (old(Pruned()) ==> Pruned()) && repr == old(repr)
      ensures content == WithSubs(old(content), Split(topic), Dropped(SubsAt(old(content), Split(topic)), sub))
      ensures Left(old(content), content, Split(topic), sub)
      ensures retained == old(retained)
      ensures sub.Some? ==>
                (r == Ok <==> Split(topic) in old(content) && sub.value in old(content)[Split(topic)])
      ensures sub.None? ==> (r == Ok <==> Split(topic) in old(tree))
      ensures -1 <= kept <= |Split(topic)| && tree == old(tree) - Removed(Split(topic), |Split(topic)|, kept)
      ensures cleaned == old(cleaned) + Chain(Split(topic), |Split(topic)|, kept)
    {
      hide Linked, PrunedExcept, HoldsSubs, HoldsRetained, Chain, Removed, Dropped, Left;
      var levels := Split(topic);
      Unsubscribing(levels, sub);
      kept := |levels|;
      NothingYet(tree, cleaned, true, levels);
      var leaf := LeafSearchNode(levels);
      if leaf == null {
        Absent(levels);
        NothingDropped(sub);
        return NotFound, kept;
      }
      NodeFacts(levels);
      r := DropSubs(leaf, levels, sub);
      kept := PruneUp(leaf, levels, true);
    }

    lemma Absent(path: Path)
      requires Valid() && path !in tree
      ensures SubsAt(content, path) == map[] && content == WithSubs(content, path, map[])
    {
    }

    method DropSubs(leaf: Node, ghost levels: Path, sub: Option<SubId>) returns (r: Outcome)
      requires Valid() && levels != [] && levels in tree && tree[levels] == leaf
      modifies leaf`subs, this`content
      ensures Valid() && (old(Pruned()) ==> PrunedExcept(levels))
      ensures content == WithSubs(old(content), levels, Dropped(SubsAt(old(content), levels), sub))
      ensures r == Ok <==> sub.None? || sub.value in SubsAt(old(content), levels)
    {
      hide Linked, PrunedExcept;
      assert leaf.subs == SubsAt(content, levels);
      r := Ok;
      match sub {
        case None =>
          PutSubs(leaf, levels, map[]);
        case Some(id) =>
          if id in leaf.subs {
            PutSubs(leaf, levels, leaf.subs - {id});
          } else {
            r := NotFound;
            Unchanged(levels, id);
          }
      }
    }

    // -------------------------------------------------------------- retained messages

    method RetainInsert(topic: string, m: Message)
      requires Valid()
      modifies this, repr
      ensures Valid() && (old(Pruned()) ==> Pruned()) && fresh(repr - old(repr))
      ensures retained == old(retained)[Split(topic) := m]
      ensures content == old(content) && cleaned == old(cleaned)
    {
      hide Linked, PrunedExcept;
      var levels := Split(topic);
      var leaf := LeafInsertNode(levels);
      PutRetained(leaf, levels, Some(m));
    }

    method RetainRemove(topic: string) returns (r: Outcome)
      requires Valid()
      modifies this, repr
      ensures Valid() && (old(Pruned()) ==> Pruned()) && repr == old(repr)
      ensures retained == old(retained) - {Split(topic)}
      ensures r == Ok <==> Split(topic) in old(tree)
      ensures content == old(content) && cleaned == old(cleaned)
    {
      hide Linked, PrunedExcept;
      var levels := Split(topic);
      var leaf := LeafSearchNode(levels);
      if leaf == null {
        return NotFound;
      }
      PutRetained(leaf, levels, None);
      ghost var kept := PruneUp(leaf, levels, false);
      r := Ok;
    }

    /** A retained publish: an empty payload removes, QoS 0 replaces, anything else stores. */
    method Retain(topic: string, m: Message)
      requires Valid()
      modifies this, repr
      ensures Valid() && (old(Pruned()) ==> Pruned()) && fresh(repr - old(repr))
      ensures retained == if m.payload == [] then old(retained) - {Split(topic)} else old(retained)[Split(topic) := m]
      ensures content == old(content) && cleaned == old(cleaned)
    {
      hide Linked, HoldsSubs, HoldsRetained, PrunedExcept;
      if m.payload == [] || m.qos == 0 {
        var _ := RetainRemove(topic);
      }
      if m.payload != [] {
        RetainInsert(topic, m);
      }
    }

    // -------------------------------------------------------------- topic to filters

    method GetSubscribers(n: Node, ghost path: Path, publisher: SubId, acc: Publishes) returns (r: Publishes)
      requires Valid() && path in tree && tree[path] == n && NonEmpty(acc)
      ensures r == Gather(overlapping, content, [path], publisher, acc)
    {
      if overlapping {
        r := OverlappingSubscribers(n.subs, publisher, acc);
      } else {
        r := NonOverlappingSubscribers(n.subs, publisher, acc);
      }
    }

    lemma Missing(path: Path, l: Level, fs: seq<Path>, publisher: SubId, acc: Publishes)
      requires Valid() && path in tree && l !in tree[path].children && NonEmpty(acc)
      ensures Gather(overlapping, content, Below(Child(path, l), fs), publisher, acc) == acc
    {
      ChildParts(path, l);
      var ps := Below(Child(path, l), fs);
      forall f | f in ps ensures f !in content {
        assert f[..|path| + 1] == Child(path, l);
        if f in tree { PrefixInTree(f, |path| + 1); }
      }
      GatherNothing(overlapping, content, ps, publisher, acc);
    }

    /** One child of a node, for some remaining levels, if it exists. */
    method SearchChild(n: Node, ghost path: Path, l: Level, levels: Path, publisher: SubId, acc: Publishes)
        returns (r: Publishes)
      requires Valid() && path in tree && tree[path] == n && NonEmpty(acc)
      ensures NonEmpty(r) && r == Gather(overlapping, content, Below(Child(path, l), Filters(levels)), publisher, acc)
      decreases |levels|, 1
    {
      if l in n.children {
        r := RecurseSearch(n.children[l], Child(path, l), levels, publisher, acc);
      } else {
        r := acc;
        Missing(path, l, Filters(levels), publisher, acc);
      }
    }

    method HashChild(n: Node, ghost path: Path, publisher: SubId, acc: Publishes) returns (r: Publishes)
      requires Valid() && path in tree && tree[path] == n && NonEmpty(acc)
      ensures NonEmpty(r) && r == Gather(overlapping, content, [Child(path, MWC)], publisher, acc)
    {
      if MWC in n.children {
        r := GetSubscribers(n.children[MWC], Child(path, MWC), publisher, acc);
        GatherNonEmpty(overlapping, content, [Child(path, MWC)], publisher, acc);
      } else {
        r := acc;
        Missing(path, MWC, [[]], publisher, acc);
        assert Child(path, MWC) + [] == Child(path, MWC);
      }
    }

    method RecurseSearch(n: Node, ghost path: Path, levels: Path, publisher: SubId, acc: Publishes)
        returns (r: Publishes)
      requires Valid() && path in tree && tree[path] == n && NonEmpty(acc)
      ensures NonEmpty(r) && r == Gather(overlapping, content, Below(path, Filters(levels)), publisher, acc)
      decreases |levels|, 0
    {
      hide Valid, Gather, Filters;
      BelowFilters(path, levels);
      GatherNonEmpty(overlapping, content, Below(path, Filters(levels)), publisher, acc);
      if levels == [] {
        r := GetSubscribers(n, path, publisher, acc);
        GatherNonEmpty(overlapping, content, [path], publisher, acc);
        GatherConcat(overlapping, content, [path], [Child(path, MWC)], publisher, acc);
        r := HashChild(n, path, publisher, r);
      } else {
        ghost var hash: seq<Path> := if levels[0] != "" then [Child(path, MWC)] else [];
        ghost var named := Below(Child(path, levels[0]), Filters(levels[1..]));
        ghost var plus := Below(Child(path, SWC), Filters(levels[1..]));
        GatherConcat(overlapping, content, hash + named, plus, publisher, acc);
        GatherConcat(overlapping, content, hash, named, publisher, acc);
        GatherNothing(overlapping, content, [], publisher, acc);
        r := acc;
        if |levels[0]| != 0 {
          r := HashChild(n, path, publisher, r);
        }
        r := SearchChild(n, path, levels[0], levels[1..], publisher, r);
        r := SearchChild(n, path, SWC, levels[1..], publisher, r);
      }
    }

    method SubscriptionSearch(topic: string, publisher: SubId) returns (r: Publishes)
      requires Valid()
      ensures r == Search(overlapping, content, Split(topic), publisher)
    {
      var levels := Split(topic);
      var level := levels[0];
      BelowRoot(Filters(levels));
      BelowRoot(Filters(levels[1..]));
      if !(level != "" && level[0] == '$') {
        r := RecurseSearch(root, [], levels, publisher, map[]);
      } else {
        r := SearchChild(root, [], level, levels[1..], publisher, map[]);
      }
    }

    // -------------------------------------------------------------- filter to topics

    /** What reading the given paths, each once, gives and leaves behind. */
    twostate predicate HasRead(seen: seq<Path>, now: int, acc: seq<Message>, r: seq<Message>)
      reads this, repr
    {
      && Valid() && NoDuplicates(seen)
      && r == acc + Messages(old(retained), seen, now)
      && retained == Purge(old(retained), seen, now)
    }

    ghost predicate InSubtree(p: Path, path: Path)
      reads `tree
    {
      p in tree && path <= p
    }

    method GetRetained(n: Node, ghost path: Path, now: int, acc: seq<Message>) returns (r: seq<Message>)
      requires Valid() && path in tree && tree[path] == n
      modifies this`retained, repr`retained
      ensures HasRead([path], now, acc, r)
    {
      assert n.retained == RetainedAt(retained, path) && (n.retained != None ==> path != []);
      ReadOne(retained, path, now);
      hide Linked, HoldsSubs, HoldsRetained, Messages, Purge;
      r := acc;
      if n.retained != None {
        if !Expired(n.retained.value, now) {
          r := r + [n.retained.value];
        } else {
          PutRetained(n, path, None);
        }
      }
    }

    ghost function Subtree(path: Path): set<Path>
      reads `tree
    {
      set p | p in tree && path <= p
    }

    lemma SubtreeOfChild(path: Path, l: Level)
      ensures forall p :: InSubtree(p, Child(path, l)) <==> InSubtree(p, path) && p != path && p[|path|] == l
    {
    }

    /** All messages at and below a node; the children come in any order. */
    method AllRetained(n: Node, ghost path: Path, now: int, acc: seq<Message>)
        returns (r: seq<Message>, ghost seen: seq<Path>)
      requires Valid() && path in tree && tree[path] == n
      modifies this`retained, repr`retained
      ensures HasRead(seen, now, acc, r)
      ensures forall p :: p in seen <==> InSubtree(p, path)
      decreases Subtree(path)
    {
      hide Valid, Messages, Purge;
      r := GetRetained(n, path, now, acc);
      seen := [path];
      EveryLevelBelow(path);
      var pending := n.children.Keys;
      while pending != {}
        invariant pending <= n.children.Keys
        invariant HasRead(seen, now, acc, r)
        invariant forall p :: p in seen <==> InSubtree(p, path) && (p == path || p[|path|] !in pending)
      {
        var l :| l in pending;
        SubtreeOfChild(path, l);
        ghost var more;
        r, more := AllRetainedOf(n, path, l, now, r);
        ReadBoth(old(retained), seen, more, now);
        NoDuplicatesConcat(seen, more);
        seen := seen + more;
        pending := pending - {l};
      }
    }

    method AllRetainedOf(n: Node, ghost path: Path, l: Level, now: int, acc: seq<Message>)
        returns (r: seq<Message>, ghost seen: seq<Path>)
      requires Valid() && path in tree && tree[path] == n && l in n.children
      modifies this`retained, repr`retained
      ensures HasRead(seen, now, acc, r)
      ensures forall p :: p in seen <==> InSubtree(p, Child(path, l))
      decreases Subtree(path), 0
    {
      SubtreeOfChild(path, l);
      assert path in Subtree(path) && path !in Subtree(Child(path, l));
      assert Subtree(Child(path, l)) <= Subtree(path) by {
        forall p | p in Subtree(Child(path, l)) ensures p in Subtree(path) { assert InSubtree(p, Child(path, l)); }
      }
      r, seen := AllRetained(n.children[l], Child(path, l), now, acc);
    }

    lemma EveryLevelBelow(path: Path)
      requires Valid() && path in tree
      ensures forall p :: InSubtree(p, path) && p != path ==> p[|path|] in tree[path].children
    {
      forall p | InSubtree(p, path) && p != path ensures p[|path|] in tree[path].children {
        PrefixInTree(p, |path| + 1);
        Parting(p, |path| + 1);
        assert p[..|path|] == path;
      }
    }

    /** Paths below a node that the remaining filter levels reach once the next level is accepted. */
    ghost predicate ReachedBelow(p: Path, path: Path, levels: Path)
      reads `tree
    {
      InSubtree(p, path) && p != path && Reaches(levels, p[|path| + 1..])
    }

    ghost predicate ReachedVia(p: Path, path: Path, l: Level, levels: Path)
      reads `tree
    {
      ReachedBelow(p, path, levels) && LevelAt(p, |path|) == l
    }

    lemma ReachedLevels(path: Path, levels: Path)
      requires Valid() && path in tree
      ensures forall p :: ReachedBelow(p, path, levels) ==> LevelAt(p, |path|) in tree[path].children
    {
      EveryLevelBelow(path);
    }

    method RetainChild(n: Node, ghost path: Path, l: Level, levels: Path, now: int, acc: seq<Message>)
        returns (r: seq<Message>, ghost seen: seq<Path>)
      requires Valid() && path in tree && tree[path] == n && l in n.children
      modifies this`retained, repr`retained
      ensures HasRead(seen, now, acc, r)
      ensures forall p :: p in seen <==> ReachedVia(p, path, l, levels)
      decreases |levels|, 1
    {
      SubtreeOfChild(path, l);
      r, seen := RetainRecurse(n.children[l], Child(path, l), levels, now, acc);
    }

    method RetainAnyChild(n: Node, ghost path: Path, levels: Path, now: int, acc: seq<Message>)
        returns (r: seq<Message>, ghost seen: seq<Path>)
      requires Valid() && path in tree && tree[path] == n
      modifies this`retained, repr`retained
      ensures HasRead(seen, now, acc, r)
      ensures forall p :: p in seen <==> ReachedBelow(p, path, levels)
      decreases |levels|, 2
    {
      hide Valid, Messages, Purge, ReachedBelow, LevelAt;
      r, seen := acc, [];
      NothingRead(retained, now);
      ReachedLevels(path, levels);
      var pending := n.children.Keys;
      while pending != {}
        invariant pending <= n.children.Keys
        invariant HasRead(seen, now, acc, r)
        invariant forall p :: (p in seen) == (ReachedBelow(p, path, levels) && LevelAt(p, |path|) !in pending)
      {
        var l :| l in pending;
        ghost var more;
        r, more := RetainChild(n, path, l, levels, now, r);
        ReadBoth(old(retained), seen, more, now);
        NoDuplicatesConcat(seen, more);
        seen := seen + more;
        pending := pending - {l};
      }
    }

    lemma ReachCases(path: Path, levels: Path)
      ensures levels == [] ==> forall p :: InSubtree(p, path) ==>
                (Reaches(levels, p[|path|..]) <==> p == path || LevelAt(p, |path|) == MWC)
      ensures levels != [] && levels[0] == MWC ==> forall p :: InSubtree(p, path) ==> Reaches(levels, p[|path|..])
      ensures levels != [] && levels[0] != MWC ==> forall p :: InSubtree(p, path) ==>
                (Reaches(levels, p[|path|..])
                 <==> ReachedBelow(p, path, levels[1..]) && (levels[0] == SWC || LevelAt(p, |path|) == levels[0]))
    {
    }

    method RetainRecurse(n: Node, ghost path: Path, levels: Path, now: int, acc: seq<Message>)
        returns (r: seq<Message>, ghost seen: seq<Path>)
      requires Valid() && path in tree && tree[path] == n
      modifies this`retained, repr`retained
      ensures HasRead(seen, now, acc, r)
      ensures forall p :: p in seen <==> InSubtree(p, path) && Reaches(levels, p[|path|..])
      decreases |levels|, 0
    {
      hide Valid, Messages, Purge;
      NodeFacts(path);
      EveryLevelBelow(path);
      ReachCases(path, levels);
      hide Reaches, ReachedBelow;
      if levels == [] {
        r := GetRetained(n, path, now, acc);
        seen := [path];
        if MWC in n.children {
          SubtreeOfChild(path, MWC);
          ghost var more;
          r, more := AllRetained(n.children[MWC], Child(path, MWC), now, r);
          ReadBoth(old(retained), seen, more, now);
          NoDuplicatesConcat(seen, more);
          seen := seen + more;
        }
      } else if levels[0] == MWC {
        r, seen := AllRetained(n, path, now, acc);
      } else {
        if levels[0] == SWC {
          r, seen := RetainAnyChild(n, path, levels[1..], now, acc);
        } else if levels[0] in n.children {
          r, seen := RetainChild(n, path, levels[0], levels[1..], now, acc);
        } else {
          r, seen := acc, [];
          NothingRead(retained, now);
        }
      }
    }

    /** A bare '#': every topic but those with an empty first level or one that starts with '$'. */
    method AllTopics(now: int) returns (r: seq<Message>, ghost seen: seq<Path>)
      requires Valid()
      modifies this`retained, repr`retained
      ensures HasRead(seen, now, [], r)
      ensures forall p :: p in seen <==> p in tree && p != [] && p[0] != "" && !Dollar(p)
    {
      hide Valid, Messages, Purge;
      NodeFacts([]);
      EveryLevelBelow([]);
      r, seen := [], [];
      NothingRead(retained, now);
      var pending := root.children.Keys;
      while pending != {}
        invariant pending <= root.children.Keys
        invariant HasRead(seen, now, [], r)
        invariant forall p :: p in seen <==> p in tree && p != [] && p[0] !in pending && p[0] != "" && !Dollar(p)
      {
        var t :| t in pending;
        if t != "" && t[0] != '$' {
          SubtreeOfChild([], t);
          ghost var more;
          r, more := AllRetained(root.children[t], Child([], t), now, r);
          ReadBoth(old(retained), seen, more, now);
          NoDuplicatesConcat(seen, more);
          seen := seen + more;
        }
        pending := pending - {t};
      }
    }

    /** The messages whose topic the filter reaches, each exactly once; those that have expired are dropped
        instead of returned. */
    method RetainSearch(filter: string, now: int) returns (r: seq<Message>, ghost seen: seq<Path>)
      requires Valid()
      modifies this`retained, repr`retained
      ensures Valid() && NoDuplicates(seen)
      ensures forall p :: p in seen <==> p in tree && RetainReaches(Split(filter), p)
      ensures r == Messages(old(retained), seen, now)
      ensures retained == Purge(old(retained), seen, now)
      ensures forall x :: x in r ==> x.expireAt.None? || x.expireAt.value - now >= 1_000_000_000
      ensures forall p :: p in seen && p in old(retained) && Lasting(old(retained)[p], now) ==> old(retained)[p] in r
      ensures forall p :: p in retained ==> p in old(retained) && retained[p] == old(retained)[p]
      ensures forall p :: p in old(retained) && (p !in seen || Lasting(old(retained)[p], now)) ==> p in retained
      ensures retained == old(retained) && old(Pruned()) ==> Pruned()
    {
      hide Valid, Messages, Purge, Lasting;
      var levels := Split(filter);
      var level := levels[0];
      NodeFacts([]);
      EveryLevelBelow([]);
      if level == MWC {
        r, seen := AllTopics(now);
      } else if level != "" && level[0] == '$' && level in root.children {
        r, seen := RetainChild(root, [], level, levels[1..], now, []);
        assert forall p :: p in tree && p != [] ==> p[0..] == p && p[0 + 1..] == p[1..];
      } else {
        r, seen := RetainRecurse(root, [], levels, now, []);
        assert forall p :: p in tree ==> p[0..] == p;
      }
      ReadMeans(old(retained), seen, now);
    }

    lemma NodeFacts(path: Path)
      requires Valid()
      ensures [] in tree && tree[[]] == root
      ensures path in tree ==> tree[path] in repr
      ensures path in tree ==> forall l :: l in tree[path].children ==>
                Child(path, l) in tree && tree[path].children[l] == tree[Child(path, l)]
      ensures forall p :: InSubtree(p, []) <==> p in tree
    {
    }

    lemma RetainedInTree(path: Path)
      requires Valid() && path in retained
      ensures path in tree
    {
    }

    // -------------------------------------------------------------- shape

    lemma {:induction false} LeadsToData(path: Path) returns (q: Path)
      requires Valid() && Pruned() && path in tree && path != []
      ensures path <= q && (q in content || q in retained)
      decreases Subtree(path)
    {
      if tree[path].children == map[] {
        q := path;
      } else {
        var l :| l in tree[path].children;
        SubtreeOfChild(path, l);
        assert path in Subtree(path) && path !in Subtree(Child(path, l));
        assert Subtree(Child(path, l)) <= Subtree(path) by {
          forall p | p in Subtree(Child(path, l)) ensures p in Subtree(path) { assert InSubtree(p, Child(path, l)); }
        }
        q := LeadsToData(Child(path, l));
      }
    }

    /** A pruned trie has a node exactly for the prefixes of what is stored: nothing is lost, nothing is left
        behind. */
    lemma NodesArePrefixes(path: Path)
      requires Valid() && Pruned()
      ensures path in tree <==> path == [] || exists q :: path <= q && (q in content || q in retained)
    {
      if path in tree && path != [] {
        var q := LeadsToData(path);
      }
      if q :| path <= q && (q in content || q in retained) {
        PrefixInTree(q, |path|);
        assert q[..|path|] == path;
      } else if path == [] {
        NodeFacts([]);
      }
    }
  }

  /** The two searches on one index: the message retained at a topic is read for a filter, once, exactly when a publish
      to that topic gives a subscriber of the filter its entry, once; apart from the two cases in which the search for
      retained messages goes further. */
  method TwoWay(p: Provider, filter: string, topic: string, id: SubId, publisher: SubId, now: int)
    returns (r: seq<Message>, entries: Publishes, ghost topics: seq<Path>, ghost filters: seq<Path>)
    requires p.Valid() && !p.overlapping && WildcardFree(Split(topic)) && ValidFilter(Split(filter))
    requires Split(topic) in p.retained && Served(p.content, Split(filter), publisher, id)
    modifies p`retained, p.repr`retained
    ensures NoDuplicates(topics) && r == Messages(old(p.retained), topics, now)
    ensures NoDuplicates(filters) && AllServed(p.content, filters, publisher, id)
    ensures Get(entries, id) == EntriesFor(p.content, filters, publisher, id)
    ensures var f, t := Split(filter), Split(topic);
            f in filters <==> t in topics && !PlusAtDollar(f, t) && !HashAtEmptyLevel(f, t)
  {
    hide Messages, Search, RetainReaches, PlusAtDollar, HashAtEmptyLevel, EntriesFor;
    entries := p.SubscriptionSearch(topic, publisher);
    filters := SearchAgreesWithMatching(p.content, Split(topic), publisher, id);
    TwoWayAgreement(Split(filter), Split(topic));
    p.RetainedInTree(Split(topic));
    hide Provider.Valid;
    r, topics := p.RetainSearch(filter, now);
  }
}
