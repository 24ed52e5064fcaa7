/** The radix tree of routes (`tree.go`), for paths without wildcards.  A ghost index from the text above and at a
    node to the node ties the linked structure to the plain map from paths to handles it stands for. */
module RadixTree {
  import opened Options

  predicate Plain(path: string) {
    ':' !in path && '*' !in path
  }

  function Lookup<H>(content: map<string, H>, path: string): Option<H> {
    if path in content then Some(content[path]) else None
  }

  /** How many routes start with a prefix. */
  function Count<H>(content: map<string, H>, f: string): nat {
    |set k | k in content && f <= k|
  }

  lemma CountAdd<H>(content: map<string, H>, path: string, h: H, f: string)
    requires path !in content
    ensures Count(content[path := h], f) == Count(content, f) + if f <= path then 1 else 0
  {
    var more := content[path := h];
    var before, after := set k | k in content && f <= k, set k | k in more && f <= k;
    assert after == if f <= path then before + {path} else before;
  }

  /** A sequence with one element moved towards the front. */
  function Moved<T>(s: seq<T>, to: nat, at: nat): (r: seq<T>)
    requires to <= at < |s|
    ensures |r| == |s|
  {
    s[..to] + [s[at]] + s[to..at] + s[at + 1..]
  }

  function Source(to: nat, at: nat, i: nat): nat {
    if i == to then at else if to < i <= at then i - 1 else i
  }

  lemma MovedAt<T>(s: seq<T>, to: nat, at: nat)
    requires to <= at < |s|
    ensures forall i :: 0 <= i < |s| ==> Source(to, at, i) < |s| && Moved(s, to, at)[i] == s[Source(to, at, i)]
    ensures forall i, j :: 0 <= i < |s| && 0 <= j < |s| && Source(to, at, i) == Source(to, at, j) ==> i == j
  {
  }

  lemma MovedMembers<T>(s: seq<T>, to: nat, at: nat)
    requires to <= at < |s|
    ensures multiset(Moved(s, to, at)) == multiset(s) && Moved(s, to, at)[to] == s[at]
  {
    assert s == s[..to] + s[to..at] + [s[at]] + s[at + 1..];
  }

  lemma MovedWithin<T>(s: seq<T>, to: nat, at: nat, all: set<T>)
    requires to <= at < |s| && forall x :: x in s ==> x in all
    ensures forall x :: x in Moved(s, to, at) ==> x in all
  {
  }

  lemma MovedStep<T>(s: seq<T>, to: nat, at: nat)
    requires 0 < to <= at < |s|
    ensures var m := Moved(s, to, at);
            m[to - 1] == s[to - 1] && m[to] == s[at] && Moved(s, to - 1, at) == m[to - 1 := m[to]][to := m[to - 1]]
  {
  }

  lemma MovedNowhere<T>(s: seq<T>, at: nat)
    requires at < |s|
    ensures Moved(s, at, at) == s
  {
  }

  class Node<H> {
    var path: string
    var indices: string
    var children: seq<Node<H>>
    var handle: Option<H>
    var priority: nat

    constructor (path: string, indices: string, children: seq<Node<H>>, handle: Option<H>, priority: nat)
      ensures this.path == path && this.indices == indices && this.children == children
      ensures this.handle == handle && this.priority == priority
    {
      this.path, this.indices, this.children, this.handle, this.priority := path, indices, children, handle, priority;
    }

    /** A new child, for one route. */
    method Append(child: Node<H>, c: char) returns (newPos: nat)
      requires |children| == |indices| && Sorted(children) && this !in children && child !in children &&
                 child != this && child.priority == 0
      requires forall i, j :: 0 <= i < j < |children| ==> children[i] != children[j]
      modifies this`children, this`indices, child`priority
      ensures newPos <= |old(children)| && child.priority == 1 && Sorted(children)
      ensures children == Moved(old(children) + [child], newPos, |old(children)|)
      ensures indices == Moved(old(indices) + [c], newPos, |old(children)|)
    {
      hide Moved, Sorted;
      SortedZero(children, child);
      indices := indices + [c];
      children := children + [child];
      newPos := IncrementChildPrio(|indices| - 1, child);
    }

    /** Ends the edge after its first bytes, at the one child that goes on. */
    method Shorten(i: nat, child: Node<H>)
      requires i < |path|
      modifies this`path, this`indices, this`children, this`handle
      ensures path == old(path)[..i] && indices == [old(path)[i]] && children == [child] && handle == None
    {
      children := [child];
      indices := [path[i]];
      path := path[..i];
      handle := None;
    }

    /** Counts one more route below a child, and moves the child before those that have fewer. */
    method IncrementChildPrio(pos: nat, child: Node<H>) returns (newPos: nat)
      requires pos < |children| == |indices| && child == children[pos] && Sorted(children) && this !in children
      requires forall i, j :: 0 <= i < j < |children| ==> children[i] != children[j]
      modifies this`children, this`indices, child`priority
      ensures newPos <= pos && child.priority == old(child.priority) + 1
      ensures children == Moved(old(children), newPos, pos) && indices == Moved(old(indices), newPos, pos)
      ensures children[newPos] == child && Sorted(children)
      ensures forall i, j :: 0 <= i < j < |children| ==> children[i].priority >= children[j].priority
      ensures multiset(children) == multiset(old(children)) && |indices| == |old(indices)|
      ensures indices[newPos] == old(indices)[pos]
    {
      hide Moved, Sorted;
      ghost var cs := children;
      SortedPairs(cs);
      MovedNowhere(cs, pos);
      MovedNowhere(indices, pos);
      child.priority := child.priority + 1;
      var prio := child.priority;
      newPos := pos;
      while newPos > 0 && children[newPos - 1].priority < prio
        invariant newPos <= pos && children == Moved(cs, newPos, pos)
        invariant forall j :: newPos <= j < pos ==> cs[j].priority < prio
        invariant child.priority == old(child.priority) + 1 == prio
        invariant indices == old(indices)
      {
        MovedStep(cs, newPos, pos);
        children := children[newPos - 1 := children[newPos]][newPos := children[newPos - 1]];
        newPos := newPos - 1;
      }
      if newPos > 0 {
        MovedStep(cs, newPos, pos);
      }
      if newPos != pos {
        indices := indices[..newPos] + indices[pos..pos + 1] + indices[newPos..pos] + indices[pos + 1..];
        IndicesMoved(old(indices), newPos, pos, indices);
      }
      StillSorted(cs, newPos, pos, children);
      SortedPairs(children);
      MovedMembers(cs, newPos, pos);
      MovedMembers(old(indices), newPos, pos);
    }
  }

  lemma SortedZero<H>(cs: seq<Node<H>>, child: Node<H>)
    requires Sorted(cs) && child.priority == 0
    ensures Sorted(cs + [child])
  {
  }

  lemma IndicesMoved(s: string, to: nat, at: nat, r: string)
    requires to <= at < |s| && r == s[..to] + s[at..at + 1] + s[to..at] + s[at + 1..]
    ensures r == Moved(s, to, at)
  {
  }

  lemma SortedPairs<H>(cs: seq<Node<H>>)
    requires Sorted(cs)
    ensures forall i, j :: 0 <= i < j < |cs| ==> cs[i].priority >= cs[j].priority
  {
  }

  predicate Sorted<H>(cs: seq<Node<H>>)
    reads cs`priority
  {
    forall i, j :: 0 <= i < j < |cs| ==> cs[i].priority >= cs[j].priority
  }

  lemma StillSorted<H>(cs: seq<Node<H>>, to: nat, at: nat, moved: seq<Node<H>>)
    requires to <= at < |cs| && moved == Moved(cs, to, at)
    requires forall i, j :: 0 <= i < j < |cs| && i != at && j != at ==> cs[i].priority >= cs[j].priority
    requires forall j :: to <= j < |cs| && j != at ==> cs[j].priority <= cs[at].priority
    requires forall j :: 0 <= j < to ==> cs[j].priority >= cs[at].priority
    ensures Sorted(moved) && moved[to] == cs[at]
  {
  }

  // ---------------------------------------------------------------- the tree as a value

  /** The fields of a node, and the text of the nodes above it. */
  datatype Info<H> = Info(prefix: string, path: string, indices: string, children: seq<Node<H>>, handle: Option<H>,
      priority: nat)

  /** All nodes, and which of them stands at the end of which text. */
  datatype State<H> = State(root: Node<H>, info: map<Node<H>, Info<H>>, tree: map<string, Node<H>>)

  ghost function Text<H>(s: State<H>, n: Node<H>): string
    requires n in s.info
  {
    s.info[n].prefix + s.info[n].path
  }

  ghost predicate Placed<H>(s: State<H>) {
    && s.root in s.info && s.info[s.root].prefix == "" && s.info[s.root].path in s.tree &&
        s.tree[s.info[s.root].path] == s.root
    && (forall f :: f in s.tree ==> s.tree[f] in s.info && Text(s, s.tree[f]) == f && s.info[s.root].path <= f)
    && (forall n :: n in s.info && n != s.root ==> s.info[n].path != "")
  }

  /** A child continues the text of its node, and stands under its first byte. */
  ghost predicate Child<H>(s: State<H>, n: Node<H>, i: nat)
    requires n in s.info && i < |s.info[n].children| && i < |s.info[n].indices|
  {
    var c := s.info[n].children[i];
    && c in s.info && s.info[c].prefix == Text(s, n) && s.info[c].path != "" &&
        s.info[c].path[0] == s.info[n].indices[i]
    && Text(s, c) in s.tree && s.tree[Text(s, c)] == c
  }

  ghost predicate Local<H>(s: State<H>, n: Node<H>)
    requires n in s.info
  {
    && |s.info[n].indices| == |s.info[n].children|
    && (forall i, j :: 0 <= i < j < |s.info[n].indices| ==> s.info[n].indices[i] != s.info[n].indices[j])
    && forall i :: 0 <= i < |s.info[n].children| ==> Child(s, n, i)
  }

  ghost predicate Linked<H>(s: State<H>) {
    forall f :: f in s.tree ==> s.tree[f] in s.info && Local(s, s.tree[f])
  }

  /** One of the children lies on the way to a text. */
  ghost predicate Leads<H>(s: State<H>, n: Node<H>, g: string)
    requires n in s.info
  {
    exists i :: 0 <= i < |s.info[n].children| && s.info[n].children[i] in s.info && Text(s, s.info[n].children[i]) <= g
  }

  ghost predicate Covered<H>(s: State<H>) {
    forall f, g :: f in s.tree && g in s.tree && f < g ==> s.tree[f] in s.info && Leads(s, s.tree[f], g)
  }

  /** The nodes hold exactly the map. */
  ghost predicate Holds<H>(s: State<H>, content: map<string, H>) {
    && (forall f :: f in s.tree ==> s.tree[f] in s.info && s.info[s.tree[f]].handle == Lookup(content, f))
    && (forall k :: k in content ==> k in s.tree && k != "")
  }

  ghost predicate Descending<H>(s: State<H>, cs: seq<Node<H>>) {
    && (forall i :: 0 <= i < |cs| ==> cs[i] in s.info)
    && forall i, j :: 0 <= i < j < |cs| ==> s.info[cs[i]].priority >= s.info[cs[j]].priority
  }

  ghost predicate Ordered<H>(s: State<H>) {
    forall f :: f in s.tree ==> s.tree[f] in s.info && Descending(s, s.info[s.tree[f]].children)
  }

  ghost predicate Shape<H>(s: State<H>, content: map<string, H>) {
    Placed(s) && Linked(s) && Covered(s) && Holds(s, content) && Ordered(s)
  }

  /** Every node counts the routes below it, and those on the way to `upTo` one more. */
  ghost predicate Counted<H>(s: State<H>, content: map<string, H>, upTo: Option<string>) {
    forall f :: f in s.tree ==>
      s.tree[f] in s.info && s.info[s.tree[f]].priority == Count(content, f) + if upTo.Some? && f <= upTo.value
          then 1 else 0
  }

  /** A node of the tree, found by walking down. */
  ghost predicate Current<H>(s: State<H>, n: Node<H>) {
    && n in s.info && Text(s, n) in s.tree && s.tree[Text(s, n)] == n
    && (n == s.root || (s.info[n].prefix in s.tree && s.tree[s.info[n].prefix] in s.info
                        && n in s.info[s.tree[s.info[n].prefix]].children))
  }

  // ---------------------------------------------------------------- facts

  /** A child stands under the first byte by which it goes on. */
  lemma FirstByte<H>(s: State<H>, f: string, i: nat)
    requires Placed(s) && Linked(s) && f in s.tree && i < |s.info[s.tree[f]].children|
    ensures var n := s.info[s.tree[f]];
            i < |n.indices| && n.children[i] in s.info && f < Text(s, n.children[i]) &&
                Text(s, n.children[i])[|f|] == n.indices[i]
  {
    assert Local(s, s.tree[f]) && Child(s, s.tree[f], i);
  }

  lemma SameChild<H>(s: State<H>, f: string, i: nat, j: nat)
    requires Linked(s) && f in s.tree && s.tree[f] in s.info && i < |s.info[s.tree[f]].indices| &&
               j < |s.info[s.tree[f]].indices|
    requires s.info[s.tree[f]].indices[i] == s.info[s.tree[f]].indices[j]
    ensures i == j
  {
  }

  lemma LeadsTo<H>(s: State<H>, f: string, g: string) returns (i: nat)
    requires Covered(s) && f in s.tree && g in s.tree && f < g
    ensures s.tree[f] in s.info && i < |s.info[s.tree[f]].children|
    ensures s.info[s.tree[f]].children[i] in s.info && Text(s, s.info[s.tree[f]].children[i]) <= g
  {
    assert Leads(s, s.tree[f], g);
    i :| 0 <= i < |s.info[s.tree[f]].children| && s.info[s.tree[f]].children[i] in s.info &&
        Text(s, s.info[s.tree[f]].children[i]) <= g;
  }

  lemma ChildCurrent<H>(s: State<H>, n: Node<H>, i: nat)
    requires Placed(s) && Linked(s) && Current(s, n) && i < |s.info[n].children|
    ensures var c := s.info[n].children[i];
            c in s.info && Current(s, c) && s.info[c].prefix == Text(s, n) && c != s.root && c != n &&
                s.info[c].path != ""
    ensures i < |s.info[n].indices| && s.info[s.info[n].children[i]].path[0] == s.info[n].indices[i]
  {
    var c := s.info[n].children[i];
    assert Local(s, n) && Child(s, n, i);
    assert |Text(s, c)| > |Text(s, n)|;
    assert s.info[s.root].path <= Text(s, n);
  }

  lemma Siblings<H>(s: State<H>, n: Node<H>)
    requires Placed(s) && Linked(s) && Current(s, n)
    ensures var cs := s.info[n].children;
            |s.info[n].indices| == |cs| && n !in cs && (forall c :: c in cs ==> c in s.info)
            && (forall i, j :: 0 <= i < j < |cs| ==> cs[i] != cs[j])
  {
    var cs := s.info[n].children;
    assert Local(s, n);
    forall i, j | 0 <= i < j < |cs| ensures cs[i] != cs[j] {
      assert Child(s, n, i) && Child(s, n, j);
    }
    forall i | 0 <= i < |cs| ensures cs[i] in s.info && cs[i] != n { ChildCurrent(s, n, i); }
  }

  /** No text of the tree lies strictly between that of a node and that above it. */
  lemma NoBetween<H>(s: State<H>, n: Node<H>, g: string)
    requires Placed(s) && Linked(s) && Covered(s) && Current(s, n) && g in s.tree && g < Text(s, n)
    ensures n != s.root && g <= s.info[n].prefix
  {
    hide Linked, Covered;
    var f := s.info[n].prefix;
    if n != s.root && |g| > |f| {
      assert f < g;
      var j := LeadsTo(s, f, g);
      var i :| 0 <= i < |s.info[s.tree[f]].children| && s.info[s.tree[f]].children[i] == n;
      FirstByte(s, f, i);
      FirstByte(s, f, j);
      SameChild(s, f, i, j);
    }
  }

  /** Whatever goes on from the middle of an edge goes on from its end. */
  lemma OnlyWay<H>(s: State<H>, n: Node<H>, i: nat, f: string)
    requires Placed(s) && Linked(s) && Covered(s) && Current(s, n) && i < |s.info[n].path| && (n != s.root ==> i > 0)
    requires f in s.tree && s.info[n].prefix + s.info[n].path[..i] < f
    ensures Text(s, n) <= f
  {
    hide Linked, Covered;
    if n != s.root {
      var p, g := s.info[n].prefix, s.info[n].prefix + s.info[n].path[..i];
      assert p < g < f;
      var j := LeadsTo(s, p, f);
      var k :| 0 <= k < |s.info[s.tree[p]].children| && s.info[s.tree[p]].children[k] == n;
      FirstByte(s, p, j);
      FirstByte(s, p, k);
      assert f[|p|] == g[|p|] == s.info[n].path[0];
      SameChild(s, p, j, k);
    }
  }

  /** Whether the text goes on below a node is decided by its next byte. */
  lemma Onward<H>(s: State<H>, f: string, g: string, i: nat)
    requires Placed(s) && Linked(s) && Covered(s) && f in s.tree && g in s.tree && f < g
    requires var n := s.info[s.tree[f]]; if i < |n.indices| then n.indices[i] == g[|f|] else g[|f|] !in n.indices
    ensures var n := s.info[s.tree[f]];
            i < |n.indices| && i < |n.children| && n.children[i] in s.info && Text(s, n.children[i]) <= g
  {
    hide Linked, Covered;
    var j := LeadsTo(s, f, g);
    FirstByte(s, f, j);
    if i < |s.info[s.tree[f]].indices| {
      SameChild(s, f, i, j);
    }
  }

  // ---------------------------------------------------------------- splitting an edge

  /** The text where an edge is split. */
  ghost function Cut<H>(s: State<H>, n: Node<H>, i: nat): string
    requires n in s.info && i < |s.info[n].path|
  {
    s.info[n].prefix + s.info[n].path[..i]
  }

  /** A node put between an edge's first `i` bytes and the rest of it. */
  ghost function Split<H>(s: State<H>, n: Node<H>, i: nat, child: Node<H>): State<H>
    requires n in s.info && i < |s.info[n].path| && s.info[n].priority > 0
  {
    var x := s.info[n];
    State(s.root,
          s.info[child := Info(Cut(s, n, i), x.path[i..], x.indices, x.children, x.handle, x.priority - 1)]
                [n := Info(x.prefix, x.path[..i], [x.path[i]], [child], None, x.priority)],
          s.tree[Text(s, n) := child][Cut(s, n, i) := n])
  }

  /** May the edge of this node be split here? */
  ghost predicate Splits<H>(s: State<H>, n: Node<H>, i: nat, child: Node<H>) {
    && Placed(s) && Linked(s) && Covered(s) && Current(s, n)
    && i < |s.info[n].path| && (n != s.root ==> i > 0) && s.info[n].priority > 0
    && child !in s.info
  }

  lemma CutString<H>(s: State<H>, n: Node<H>, i: nat)
    requires n in s.info && i < |s.info[n].path|
    ensures var g, f := Cut(s, n, i), Text(s, n);
            g < f && f[|g|] == s.info[n].path[i] && g + s.info[n].path[i..] == f && s.info[n].prefix <= g
            && (i > 0 ==> s.info[n].prefix < g)
  {
  }

  lemma CutNew<H>(s: State<H>, n: Node<H>, i: nat, child: Node<H>)
    requires Splits(s, n, i, child)
    ensures Cut(s, n, i) !in s.tree
  {
    hide Linked, Covered, Placed, Cut, Text;
    CutString(s, n, i);
    if Cut(s, n, i) in s.tree { NoBetween(s, n, Cut(s, n, i)); }
  }

  /** Apart from the split edge itself, a text lies above the cut just when it lies above the end of the edge, and
      what lies below the cut lies below the end. */
  lemma CutOrder<H>(s: State<H>, n: Node<H>, i: nat, child: Node<H>)
    requires Splits(s, n, i, child)
    ensures forall h :: h in s.tree && h != Text(s, n) ==> (h <= Cut(s, n, i) <==> h <= Text(s, n))
    ensures forall h :: h in s.tree && Cut(s, n, i) < h ==> Text(s, n) <= h
  {
    hide Linked, Covered, Placed, Cut, Text;
    CutString(s, n, i);
    forall h | h in s.tree && h != Text(s, n) ensures h <= Cut(s, n, i) <==> h <= Text(s, n) {
      if h < Text(s, n) { NoBetween(s, n, h); }
    }
    forall h | h in s.tree && Cut(s, n, i) < h ensures Text(s, n) <= h { CutOnly(s, n, i, h); }
  }

  lemma CutOnly<H>(s: State<H>, n: Node<H>, i: nat, h: string)
    requires Placed(s) && Linked(s) && Covered(s) && Current(s, n) && i < |s.info[n].path| && (n != s.root ==> i > 0)
    requires h in s.tree && Cut(s, n, i) < h
    ensures Text(s, n) <= h
  {
    OnlyWay(s, n, i, h);
  }

  /** What splitting changes. */
  lemma SplitInfo<H>(s: State<H>, n: Node<H>, i: nat, child: Node<H>)
    requires n in s.info && i < |s.info[n].path| && s.info[n].priority > 0 && child !in s.info
    ensures var t, x, g, f := Split(s, n, i, child), s.info[n], Cut(s, n, i), Text(s, n);
            && t.root == s.root && t.info.Keys == s.info.Keys + {child}
            && t.info[n] == Info(x.prefix, x.path[..i], [x.path[i]], [child], None, x.priority)
            && t.info[child] == Info(g, x.path[i..], x.indices, x.children, x.handle, x.priority - 1)
            && (forall m :: m in s.info && m != n ==> t.info[m] == s.info[m])
            && (forall h :: h in t.tree <==> h in s.tree || h == g || h == f)
            && t.tree[f] == child && t.tree[g] == n &&
                (forall h :: h in s.tree && h != f && h != g ==> t.tree[h] == s.tree[h])
            && Text(t, child) == f && Text(t, n) == g &&
                (forall m :: m in s.info && m != n ==> Text(t, m) == Text(s, m))
  {
    CutString(s, n, i);
  }

  lemma PlacedAt<H>(s: State<H>, h: string)
    requires Placed(s) && h in s.tree
    ensures s.tree[h] in s.info && Text(s, s.tree[h]) == h && s.root in s.info && Text(s, s.root) <= h
    ensures Text(s, s.root) == s.info[s.root].path && s.info[s.root].prefix == ""
  {
  }

  lemma SplitPlaced<H>(s: State<H>, n: Node<H>, i: nat, child: Node<H>)
    requires Splits(s, n, i, child)
    ensures Placed(Split(s, n, i, child))
  {
    hide Splits, Split, Text;
    SplitRoot(s, n, i, child);
    var t := Split(s, n, i, child);
    SplitPaths(s, n, i, child);
    forall h | h in t.tree ensures t.tree[h] in t.info && Text(t, t.tree[h]) == h && t.info[t.root].path <= h {
      SplitPlacedAt(s, n, i, child, h);
    }
  }

  lemma SplitRoot<H>(s: State<H>, n: Node<H>, i: nat, child: Node<H>)
    requires Splits(s, n, i, child)
    ensures n in s.info && i < |s.info[n].path| && s.info[n].priority > 0
    ensures var t := Split(s, n, i, child);
            && t.root == s.root && t.root in t.info && t.info[t.root].prefix == ""
            && t.info[t.root].path in t.tree && t.tree[t.info[t.root].path] == t.root
  {
    hide Linked, Covered, Split, Cut, Text;
    SplitInfo(s, n, i, child);
    CutString(s, n, i);
    PlacedAt(s, Text(s, n));
    RootText(s, n, i);
  }

  lemma SplitPlacedAt<H>(s: State<H>, n: Node<H>, i: nat, child: Node<H>, h: string)
    requires Splits(s, n, i, child) && h in Split(s, n, i, child).tree
    ensures var t := Split(s, n, i, child);
            t.tree[h] in t.info && Text(t, t.tree[h]) == h && t.root in t.info && t.info[t.root].path <= h
  {
    hide Linked, Covered, Split, Cut, Text, Placed;
    SplitInfo(s, n, i, child);
    CutString(s, n, i);
    CutNew(s, n, i, child);
    PlacedAt(s, Text(s, n));
    RootText(s, n, i);
    if h != Text(s, n) && h != Cut(s, n, i) {
      PlacedAt(s, h);
      Elsewhere(s, h, n);
    }
  }

  lemma SplitPaths<H>(s: State<H>, n: Node<H>, i: nat, child: Node<H>)
    requires Splits(s, n, i, child)
    ensures var t := Split(s, n, i, child); forall m :: m in t.info && m != s.root ==> t.info[m].path != ""
  {
    hide Linked, Covered, Split, Cut, Text;
    var t := Split(s, n, i, child);
    SplitInfo(s, n, i, child);
    forall m | m in t.info && m != s.root ensures t.info[m].path != "" {
      if m == child {
        assert |t.info[m].path| == |s.info[n].path| - i;
      } else if m == n {
        assert |t.info[m].path| == i;
      }
    }
  }

  lemma RootText<H>(s: State<H>, n: Node<H>, i: nat)
    requires Placed(s) && Current(s, n) && i < |s.info[n].path| && (n != s.root ==> i > 0)
    ensures n == s.root ==> Cut(s, n, i) == s.info[n].path[..i]
    ensures n != s.root ==> s.info[s.root].path <= Cut(s, n, i)
  {
  }

  lemma SplitCurrent<H>(s: State<H>, n: Node<H>, i: nat, child: Node<H>)
    requires Splits(s, n, i, child)
    ensures Current(Split(s, n, i, child), n)
  {
    hide Linked, Covered, Placed, Split, Cut, Text;
    SplitInfo(s, n, i, child);
    CutString(s, n, i);
    CutNew(s, n, i, child);
    if n != s.root {
      SplitParent(s, n);
    }
  }

  lemma SplitParent<H>(s: State<H>, n: Node<H>)
    requires Placed(s) && Current(s, n) && n != s.root
    ensures var p := s.info[n].prefix; p in s.tree && s.tree[p] in s.info && s.tree[p] != n && p != Text(s, n)
  {
  }

  /** A child of a node of the tree. */
  lemma ChildTree<H>(s: State<H>, f: string, j: nat)
    requires Placed(s) && Linked(s) && f in s.tree && j < |s.info[s.tree[f]].children|
    ensures var n, c := s.info[s.tree[f]], s.info[s.tree[f]].children[j];
            && |n.indices| == |n.children| && c in s.info && Text(s, c) in s.tree && s.tree[Text(s, c)] == c
            && s.info[c].prefix == f && c != s.tree[f] && c != s.root && f < Text(s, c)
            && s.info[c].path != "" && s.info[c].path[0] == n.indices[j] && Text(s, c)[|f|] == n.indices[j]
  {
    var c := s.info[s.tree[f]].children[j];
    assert Local(s, s.tree[f]) && Child(s, s.tree[f], j);
    assert s.info[s.root].path <= f < Text(s, c);
  }

  lemma LocalAt<H>(s: State<H>, f: string)
    requires Linked(s) && f in s.tree
    ensures s.tree[f] in s.info && |s.info[s.tree[f]].indices| == |s.info[s.tree[f]].children|
    ensures forall i, j :: 0 <= i < j < |s.info[s.tree[f]].indices| ==>
              s.info[s.tree[f]].indices[i] != s.info[s.tree[f]].indices[j]
  {
  }

  /** The children of a node are children still; those of the split node are now below the new one. */
  lemma SplitChildren<H>(s: State<H>, n: Node<H>, i: nat, child: Node<H>, f: string)
    requires Splits(s, n, i, child) && f in s.tree
    ensures var t := Split(s, n, i, child); f in t.tree && t.tree[f] in t.info && Local(t, t.tree[f])
  {
    hide Placed, Linked, Covered, Split, Cut, Text;
    var t := Split(s, n, i, child);
    SplitInfo(s, n, i, child);
    CutString(s, n, i);
    CutNew(s, n, i, child);
    PlacedAt(s, f);
    LocalAt(s, f);
    var k := t.tree[f];
    forall j | 0 <= j < |t.info[k].children| ensures Child(t, k, j) {
      ChildTree(s, f, j);
      var c := s.info[s.tree[f]].children[j];
      assert t.info[k].children[j] == c && Text(s, c) != Cut(s, n, i);
      if c == n { FirstKept(s, n, i); }
    }
  }

  lemma FirstKept<H>(s: State<H>, n: Node<H>, i: nat)
    requires n in s.info && 0 < i < |s.info[n].path|
    ensures s.info[n].path[..i] != "" && s.info[n].path[..i][0] == s.info[n].path[0]
  {
  }

  lemma SplitLinked<H>(s: State<H>, n: Node<H>, i: nat, child: Node<H>)
    requires Splits(s, n, i, child)
    ensures Linked(Split(s, n, i, child))
  {
    hide Placed, Linked, Covered, Split, Cut, Text, Local;
    var t := Split(s, n, i, child);
    SplitInfo(s, n, i, child);
    forall f | f in t.tree ensures t.tree[f] in t.info && Local(t, t.tree[f]) {
      if f in s.tree { SplitChildren(s, n, i, child, f); } else { SplitTop(s, n, i, child); }
    }
    LinkedFrom(t);
  }

  lemma LinkedFrom<H>(s: State<H>)
    requires forall f :: f in s.tree ==> s.tree[f] in s.info && Local(s, s.tree[f])
    ensures Linked(s)
  {
  }

  lemma SplitTop<H>(s: State<H>, n: Node<H>, i: nat, child: Node<H>)
    requires Splits(s, n, i, child)
    ensures Local(Split(s, n, i, child), n)
  {
    hide Placed, Linked, Covered, Split, Cut, Text;
    var t := Split(s, n, i, child);
    SplitInfo(s, n, i, child);
    CutString(s, n, i);
    CutNew(s, n, i, child);
    assert Child(t, n, 0);
  }

  /** What led on still leads on. */
  lemma SplitLeads<H>(s: State<H>, n: Node<H>, i: nat, child: Node<H>, f: string, g: string)
    requires Splits(s, n, i, child) && f in s.tree && g in s.tree && f < g
    ensures var t := Split(s, n, i, child); f in t.tree && t.tree[f] in t.info && Leads(t, t.tree[f], g)
    ensures g == Text(s, n) ==> Leads(Split(s, n, i, child), Split(s, n, i, child).tree[f], Cut(s, n, i))
  {
    hide Placed, Linked, Covered, Split, Cut, Text;
    var t := Split(s, n, i, child);
    SplitInfo(s, n, i, child);
    CutString(s, n, i);
    CutNew(s, n, i, child);
    CutOrder(s, n, i, child);
    PlacedAt(s, f);
    var j := LeadsTo(s, f, g);
    ChildTree(s, f, j);
    var c := s.info[s.tree[f]].children[j];
    assert t.info[t.tree[f]].children[j] == c;
    assert Text(t, c) <= g;
    if g == Text(s, n) {
      assert Text(t, c) <= Cut(s, n, i);
    }
  }

  lemma SplitCovered<H>(s: State<H>, n: Node<H>, i: nat, child: Node<H>)
    requires Splits(s, n, i, child)
    ensures Covered(Split(s, n, i, child))
  {
    hide Placed, Linked, Covered, Split, Cut, Text, Leads;
    var t := Split(s, n, i, child);
    SplitInfo(s, n, i, child);
    CutString(s, n, i);
    CutNew(s, n, i, child);
    CutOrder(s, n, i, child);
    forall f, g | f in t.tree && g in t.tree && f < g ensures t.tree[f] in t.info && Leads(t, t.tree[f], g) {
      if f == Cut(s, n, i) {
        LeadsBy(t, n, 0, g);
      } else if g == Cut(s, n, i) {
        SplitLeads(s, n, i, child, f, Text(s, n));
      } else {
        SplitLeads(s, n, i, child, f, g);
      }
    }
    CoveredFrom(t);
  }

  lemma LeadsBy<H>(s: State<H>, n: Node<H>, i: nat, g: string)
    requires n in s.info && i < |s.info[n].children| && s.info[n].children[i] in s.info &&
               Text(s, s.info[n].children[i]) <= g
    ensures Leads(s, n, g)
  {
  }

  lemma CoveredFrom<H>(s: State<H>)
    requires forall f, g :: f in s.tree && g in s.tree && f < g ==> s.tree[f] in s.info && Leads(s, s.tree[f], g)
    ensures Covered(s)
  {
  }

  lemma SplitHolds<H>(s: State<H>, n: Node<H>, i: nat, child: Node<H>, content: map<string, H>)
    requires Splits(s, n, i, child) && Holds(s, content)
    ensures Holds(Split(s, n, i, child), content)
  {
    hide Linked, Covered, Placed, Split, Cut, Text;
    SplitInfo(s, n, i, child);
    CutNew(s, n, i, child);
    forall f | f in s.tree && f != Text(s, n) ensures s.tree[f] != n { Elsewhere(s, f, n); }
  }

  lemma Elsewhere<H>(s: State<H>, f: string, n: Node<H>)
    requires Placed(s) && f in s.tree && n in s.info && f != Text(s, n)
    ensures s.tree[f] != n
  {
  }

  lemma SplitOrdered<H>(s: State<H>, n: Node<H>, i: nat, child: Node<H>)
    requires Splits(s, n, i, child) && Ordered(s)
    ensures Ordered(Split(s, n, i, child))
  {
    hide Linked, Covered, Placed, Split, Cut, Text;
    var t := Split(s, n, i, child);
    SplitInfo(s, n, i, child);
    CutNew(s, n, i, child);
    forall f | f in t.tree ensures t.tree[f] in t.info && Descending(t, t.info[t.tree[f]].children) {
      if f in s.tree {
        assert Descending(s, s.info[s.tree[f]].children);
        if f != Text(s, n) { Elsewhere(s, f, n); }
      }
    }
  }

  lemma CountSame<H>(content: map<string, H>, f: string, g: string)
    requires forall k :: k in content ==> (f <= k <==> g <= k)
    ensures Count(content, f) == Count(content, g)
  {
    assert (set k | k in content && f <= k) == (set k | k in content && g <= k);
  }

  lemma SplitCounted<H>(s: State<H>, n: Node<H>, i: nat, child: Node<H>, content: map<string, H>)
    requires Splits(s, n, i, child) && Holds(s, content) && Counted(s, content, Some(Text(s, n)))
    ensures Counted(Split(s, n, i, child), content, Some(Cut(s, n, i)))
  {
    hide Linked, Covered, Placed, Split, Cut, Text, Count;
    var t := Split(s, n, i, child);
    CutCounts(s, n, i, child, content);
    SplitInfo(s, n, i, child);
    CutOrder(s, n, i, child);
    hide Splits, Holds;
    forall f | f in t.tree
      ensures t.tree[f] in t.info
      ensures t.info[t.tree[f]].priority == Count(content, f) + if f <= Cut(s, n, i) then 1 else 0
    {
      SplitCountedAt(s, n, i, child, content, f);
    }
  }

  /** As many routes start with the cut as with the whole edge. */
  lemma CutCounts<H>(s: State<H>, n: Node<H>, i: nat, child: Node<H>, content: map<string, H>)
    requires Splits(s, n, i, child) && Holds(s, content)
    ensures Count(content, Cut(s, n, i)) == Count(content, Text(s, n))
  {
    hide Linked, Covered, Placed, Cut, Text, Count;
    CutString(s, n, i);
    CutNew(s, n, i, child);
    CutOrder(s, n, i, child);
    var cut, text := Cut(s, n, i), Text(s, n);
    forall k | k in content ensures cut <= k <==> text <= k {
      assert k in s.tree && k != cut;
      if cut <= k {
        assert cut < k;
      }
    }
    CountSame(content, cut, text);
  }

  lemma SplitCountedAt<H>(s: State<H>, n: Node<H>, i: nat, child: Node<H>, content: map<string, H>, f: string)
    requires Splits(s, n, i, child) && Counted(s, content, Some(Text(s, n))) && f in Split(s, n, i, child).tree
    requires Count(content, Cut(s, n, i)) == Count(content, Text(s, n))
    requires f in s.tree && f != Text(s, n) ==> (f <= Cut(s, n, i) <==> f <= Text(s, n))
    ensures var t := Split(s, n, i, child);
            t.tree[f] in t.info && t.info[t.tree[f]].priority == Count(content, f) + if f <= Cut(s, n, i) then 1 else 0
  {
    hide Linked, Covered, Placed, Split, Cut, Text, Count;
    SplitInfo(s, n, i, child);
    CutString(s, n, i);
    CutNew(s, n, i, child);
    assert s.tree[Text(s, n)] == n;
    if f != Text(s, n) && f != Cut(s, n, i) {
      Elsewhere(s, f, n);
    }
  }

  lemma SplitKeeps<H>(s: State<H>, n: Node<H>, i: nat, child: Node<H>, content: map<string, H>)
    requires Splits(s, n, i, child) && Shape(s, content)
    ensures var t := Split(s, n, i, child);
            && Shape(t, content) && Current(t, n) && t.info[n].handle == None && Text(t, n) == Cut(s, n, i)
            && (Counted(s, content, Some(Text(s, n))) ==> Counted(t, content, Some(Cut(s, n, i))))
  {
    hide Placed, Linked, Covered, Ordered, Holds, Counted, Split, Cut, Text;
    SplitPlaced(s, n, i, child);
    SplitCurrent(s, n, i, child);
    SplitLinked(s, n, i, child);
    SplitCovered(s, n, i, child);
    SplitHolds(s, n, i, child, content);
    SplitOrdered(s, n, i, child);
    SplitInfo(s, n, i, child);
    if Counted(s, content, Some(Text(s, n))) { SplitCounted(s, n, i, child, content); }
  }

  // ---------------------------------------------------------------- stepping down

  /** One more route below a child, which moves to the front of those with fewer. */
  ghost function Bump<H>(s: State<H>, n: Node<H>, pos: nat, to: nat): State<H>
    requires n in s.info && to <= pos < |s.info[n].children| == |s.info[n].indices|
    requires s.info[n].children[pos] in s.info && s.info[n].children[pos] != n
  {
    var x, c := s.info[n], s.info[n].children[pos];
    s.(info := s.info[n := x.(children := Moved(x.children, to, pos), indices := Moved(x.indices, to, pos))]
                     [c := s.info[c].(priority := s.info[c].priority + 1)])
  }

  ghost predicate Bumps<H>(s: State<H>, n: Node<H>, pos: nat, to: nat) {
    && Placed(s) && Linked(s) && Covered(s) && Current(s, n)
    && to <= pos < |s.info[n].children| == |s.info[n].indices|
    && s.info[n].children[pos] in s.info && s.info[n].children[pos] != n
  }

  lemma BumpInfo<H>(s: State<H>, n: Node<H>, pos: nat, to: nat)
    requires n in s.info && to <= pos < |s.info[n].children| == |s.info[n].indices|
    requires s.info[n].children[pos] in s.info && s.info[n].children[pos] != n
    ensures var t, x, c := Bump(s, n, pos, to), s.info[n], s.info[n].children[pos];
            && t.root == s.root && t.tree == s.tree && t.info.Keys == s.info.Keys
            && t.info[n] == x.(children := Moved(x.children, to, pos), indices := Moved(x.indices, to, pos))
            && t.info[c] == s.info[c].(priority := s.info[c].priority + 1)
            && (forall m :: m in s.info && m != n && m != c ==> t.info[m] == s.info[m])
    ensures var t := Bump(s, n, pos, to);
            forall m :: m in s.info ==> Text(t, m) == Text(s, m) && t.info[m].prefix == s.info[m].prefix
                                        && t.info[m].path == s.info[m].path && t.info[m].handle == s.info[m].handle
  {
  }

  lemma BumpLocal<H>(s: State<H>, n: Node<H>, pos: nat, to: nat, f: string)
    requires Bumps(s, n, pos, to) && f in s.tree
    ensures s.tree[f] in s.info && Local(Bump(s, n, pos, to), s.tree[f])
  {
    hide Placed, Linked, Covered, Bump, Text, Moved, Child;
    var t, m := Bump(s, n, pos, to), s.tree[f];
    BumpInfo(s, n, pos, to);
    PlacedAt(s, f);
    LocalAt(s, f);
    if m == n {
      Distinct(s.info[n].indices, to, pos);
    } else {
      assert t.info[m].indices == s.info[m].indices;
    }
    forall j | 0 <= j < |t.info[m].children| ensures Child(t, m, j) {
      BumpChild(s, n, pos, to, f, j);
    }
  }

  lemma BumpChild<H>(s: State<H>, n: Node<H>, pos: nat, to: nat, f: string, j: nat)
    requires Bumps(s, n, pos, to) && f in s.tree && s.tree[f] in s.info && j < |s.info[s.tree[f]].children|
    ensures var t, m := Bump(s, n, pos, to), s.tree[f];
            m in t.info && |t.info[m].children| == |t.info[m].indices| == |s.info[m].children| && Child(t, m, j)
  {
    hide Placed, Linked, Covered, Bump, Text, Moved;
    BumpInfo(s, n, pos, to);
    PlacedAt(s, f);
    if s.tree[f] == n {
      MovedAt(s.info[n].children, to, pos);
      MovedAt(s.info[n].indices, to, pos);
      ChildTree(s, f, Source(to, pos, j));
    } else {
      ChildTree(s, f, j);
    }
  }

  lemma Distinct<T>(s: seq<T>, to: nat, at: nat)
    requires to <= at < |s| && forall i, j :: 0 <= i < j < |s| ==> s[i] != s[j]
    ensures forall i, j :: 0 <= i < j < |s| ==> Moved(s, to, at)[i] != Moved(s, to, at)[j]
  {
  }

  lemma BumpLeads<H>(s: State<H>, n: Node<H>, pos: nat, to: nat, f: string, g: string)
    requires Bumps(s, n, pos, to) && f in s.tree && g in s.tree && f < g
    ensures s.tree[f] in s.info && Leads(Bump(s, n, pos, to), s.tree[f], g)
  {
    hide Placed, Linked, Covered, Bump, Text, Moved, Leads;
    var t, m := Bump(s, n, pos, to), s.tree[f];
    BumpInfo(s, n, pos, to);
    var j := LeadsTo(s, f, g);
    if m == n {
      MovedTo(s.info[n].children, to, pos, j);
      LeadsBy(t, m, Target(to, pos, j), g);
    } else {
      LeadsBy(t, m, j, g);
    }
  }

  function Target(to: nat, at: nat, i: nat): nat {
    if i == at then to else if to <= i < at then i + 1 else i
  }

  lemma MovedTo<T>(s: seq<T>, to: nat, at: nat, i: nat)
    requires to <= at < |s| && i < |s|
    ensures Target(to, at, i) < |s| && Moved(s, to, at)[Target(to, at, i)] == s[i]
  {
  }

  lemma BumpShape<H>(s: State<H>, n: Node<H>, pos: nat, to: nat, content: map<string, H>)
    requires Bumps(s, n, pos, to) && Holds(s, content)
    ensures var t := Bump(s, n, pos, to); Placed(t) && Linked(t) && Covered(t) && Holds(t, content)
  {
    hide Linked, Covered, Bump, Text, Local, Leads;
    var t := Bump(s, n, pos, to);
    BumpInfo(s, n, pos, to);
    forall f | f in t.tree ensures t.tree[f] in t.info && Local(t, t.tree[f]) { BumpLocal(s, n, pos, to, f); }
    forall f, g | f in t.tree && g in t.tree && f < g ensures t.tree[f] in t.info && Leads(t, t.tree[f], g) {
      BumpLeads(s, n, pos, to, f, g);
    }
    LinkedFrom(t);
    CoveredFrom(t);
  }

  lemma BumpOrdered<H>(s: State<H>, n: Node<H>, pos: nat, to: nat)
    requires Bumps(s, n, pos, to) && Ordered(s)
    requires Descending(Bump(s, n, pos, to), Bump(s, n, pos, to).info[n].children)
    ensures Ordered(Bump(s, n, pos, to))
  {
    hide Placed, Linked, Covered, Bump, Text, Moved;
    var t, c := Bump(s, n, pos, to), s.info[n].children[pos];
    BumpInfo(s, n, pos, to);
    ChildTree(s, Text(s, n), pos);
    forall f | f in t.tree ensures t.tree[f] in t.info && Descending(t, t.info[t.tree[f]].children) {
      PlacedAt(s, f);
      var m := s.tree[f];
      assert Descending(s, s.info[m].children);
      if m != n {
        OnlyParent(s, n, f, c);
        assert t.info[m].children == s.info[m].children;
      }
    }
  }

  /** A node is a child of one node only. */
  lemma OnlyParent<H>(s: State<H>, n: Node<H>, f: string, c: Node<H>)
    requires Placed(s) && Linked(s) && Current(s, n) && f in s.tree && s.tree[f] != n && c in s.info &&
               s.info[c].prefix == Text(s, n)
    ensures s.tree[f] in s.info && c !in s.info[s.tree[f]].children
  {
    hide Placed, Linked, Text;
    PlacedAt(s, f);
    if j :| 0 <= j < |s.info[s.tree[f]].children| && s.info[s.tree[f]].children[j] == c {
      ChildTree(s, f, j);
    }
  }

  lemma BumpCounted<H>(s: State<H>, n: Node<H>, pos: nat, to: nat, content: map<string, H>)
    requires Bumps(s, n, pos, to) && Counted(s, content, Some(Text(s, n)))
    ensures Counted(Bump(s, n, pos, to), content, Some(Text(s, s.info[n].children[pos])))
  {
    hide Placed, Linked, Covered, Bump, Text, Count;
    var t, c := Bump(s, n, pos, to), s.info[n].children[pos];
    BumpInfo(s, n, pos, to);
    ChildTree(s, Text(s, n), pos);
    ChildCurrent(s, n, pos);
    forall f | f in t.tree
      ensures t.tree[f] in t.info && t.info[t.tree[f]].priority == Count(content, f) + if f <= Text(s, c) then 1 else 0
    {
      PlacedAt(s, f);
      assert s.info[s.tree[f]].priority == Count(content, f) + if f <= Text(s, n) then 1 else 0;
      if f == Text(s, c) {
        assert |f| > |Text(s, n)|;
      } else {
        assert s.tree[f] != c && t.info[s.tree[f]].priority == s.info[s.tree[f]].priority;
        if f < Text(s, c) { NoBetween(s, c, f); }
        if f <= Text(s, n) { assert f < Text(s, c); }
      }
    }
  }

  lemma BumpKeeps<H>(s: State<H>, n: Node<H>, pos: nat, to: nat, content: map<string, H>)
    requires Bumps(s, n, pos, to) && Shape(s, content)
    requires Descending(Bump(s, n, pos, to), Bump(s, n, pos, to).info[n].children)
    ensures var t, c := Bump(s, n, pos, to), s.info[n].children[pos];
            && Shape(t, content) && Current(t, c) && Text(t, c) == Text(s, c) && t.info[c].prefix == Text(s, n)
            && t.info[c].path != "" && c != s.root && t.info[c].priority > 0
            && (Counted(s, content, Some(Text(s, n))) ==> Counted(t, content, Some(Text(t, c))))
  {
    hide Placed, Linked, Covered, Ordered, Holds, Counted, Bump, Text, Moved;
    BumpShape(s, n, pos, to, content);
    BumpOrdered(s, n, pos, to);
    BumpInfo(s, n, pos, to);
    ChildCurrent(s, n, pos);
    MovedTo(s.info[n].children, to, pos, pos);
    if Counted(s, content, Some(Text(s, n))) { BumpCounted(s, n, pos, to, content); }
  }

  // ---------------------------------------------------------------- the root

  ghost function BumpRoot<H>(s: State<H>): State<H>
    requires s.root in s.info
  {
    s.(info := s.info[s.root := s.info[s.root].(priority := s.info[s.root].priority + 1)])
  }

  lemma BumpRootInfo<H>(s: State<H>)
    requires s.root in s.info
    ensures var t := BumpRoot(s);
            && t.root == s.root && t.tree == s.tree && t.info.Keys == s.info.Keys
            && (forall m :: m in s.info && m != s.root ==> t.info[m] == s.info[m])
            && t.info[s.root] == s.info[s.root].(priority := s.info[s.root].priority + 1)
            && forall m :: m in s.info ==> Text(t, m) == Text(s, m)
  {
  }

  lemma BumpRootShape<H>(s: State<H>, content: map<string, H>)
    requires Placed(s) && Linked(s) && Covered(s) && Holds(s, content)
    ensures var t := BumpRoot(s); Placed(t) && Linked(t) && Covered(t) && Holds(t, content)
  {
    hide Linked, Covered, BumpRoot, Text, Local, Leads;
    var t := BumpRoot(s);
    BumpRootInfo(s);
    forall f | f in t.tree ensures t.tree[f] in t.info && Local(t, t.tree[f]) { BumpRootLocal(s, f); }
    forall f, g | f in t.tree && g in t.tree && f < g ensures t.tree[f] in t.info && Leads(t, t.tree[f], g) {
      var j := LeadsTo(s, f, g);
      LeadsBy(t, t.tree[f], j, g);
    }
    LinkedFrom(t);
    CoveredFrom(t);
  }

  lemma BumpRootLocal<H>(s: State<H>, f: string)
    requires Placed(s) && Linked(s) && f in s.tree
    ensures s.tree[f] in s.info && Local(BumpRoot(s), s.tree[f])
  {
    hide Placed, Linked, BumpRoot, Text;
    PlacedAt(s, f);
    BumpRootInfo(s);
    LocalAt(s, f);
    forall j | 0 <= j < |s.info[s.tree[f]].children| ensures Child(BumpRoot(s), s.tree[f], j) { ChildTree(s, f, j); }
  }

  lemma BumpRootKeeps<H>(s: State<H>, content: map<string, H>)
    requires Shape(s, content)
    ensures var t := BumpRoot(s);
            && Shape(t, content) && Current(t, t.root) && Text(t, t.root) == t.info[t.root].path &&
                t.info[t.root].priority > 0
            && t.info[t.root].prefix == "" && t.info[t.root] == s.info[s.root].(priority := s.info[s.root].priority + 1)
            && (Counted(s, content, None) ==> Counted(t, content, Some(Text(t, t.root))))
  {
    hide Linked, Covered, Ordered, Holds, Counted, BumpRoot, Text;
    BumpRootShape(s, content);
    BumpRootInfo(s);
    PlacedAt(s, s.info[s.root].path);
    BumpRootOrdered(s);
    if Counted(s, content, None) { BumpRootCounted(s, content); }
  }

  lemma BumpRootOrdered<H>(s: State<H>)
    requires Placed(s) && Linked(s) && Ordered(s)
    ensures Ordered(BumpRoot(s))
  {
    hide Placed, Linked, BumpRoot, Text;
    assert s.root in s.info by { RootIn(s); }
    BumpRootInfo(s);
    forall f | f in s.tree
      ensures s.tree[f] in s.info && Descending(BumpRoot(s), BumpRoot(s).info[s.tree[f]].children)
    {
      assert Descending(s, s.info[s.tree[f]].children);
      forall j | 0 <= j < |s.info[s.tree[f]].children| ensures s.info[s.tree[f]].children[j] != s.root {
        ChildTree(s, f, j);
      }
    }
  }

  lemma RootIn<H>(s: State<H>)
    requires Placed(s)
    ensures s.root in s.info
  {
  }

  lemma BumpRootCounted<H>(s: State<H>, content: map<string, H>)
    requires Placed(s) && Counted(s, content, None)
    ensures s.root in s.info && Counted(BumpRoot(s), content, Some(Text(s, s.root)))
  {
    hide BumpRoot, Text, Count;
    BumpRootInfo(s);
    forall f | f in s.tree
      ensures s.tree[f] in s.info &&
                BumpRoot(s).info[s.tree[f]].priority == Count(content, f) + if f <= Text(s, s.root) then 1 else 0
    {
      PlacedAt(s, f);
      PlacedAt(s, s.info[s.root].path);
      if f <= Text(s, s.root) { assert f == Text(s, s.root); }
    }
  }

  /** A tree whose root has neither text nor children holds nothing. */
  lemma NothingYet<H>(s: State<H>, content: map<string, H>)
    requires Shape(s, content) && s.root in s.info && s.info[s.root].path == "" && s.info[s.root].children == []
    ensures content == map[] && (forall f :: f in s.tree ==> f == "") && s.info[s.root].handle == None &&
              s.info[s.root].indices == ""
  {
    hide Linked, Covered;
    forall f | f in s.tree ensures f == "" {
      if f != "" { var j := LeadsTo(s, "", f); }
    }
    LocalAt(s, "");
    assert forall k :: k !in content;
  }

  ghost function First<H>(s: State<H>, path: string, h: H): State<H>
    requires s.root in s.info
  {
    State(s.root, s.info[s.root := s.info[s.root].(path := path, handle := Some(h))], map[path := s.root])
  }

  lemma FirstKeeps<H>(s: State<H>, path: string, h: H)
    requires Shape(s, map[]) && s.info[s.root].path == "" && s.info[s.root].children == [] && path != ""
    ensures var t := First(s, path, h);
            Shape(t, map[path := h]) && (Counted(s, map[], Some("")) ==> Counted(t, map[path := h], None))
  {
    NothingYet(s, map[]);
    var t := First(s, path, h);
    assert Text(t, t.root) == path;
    assert Local(t, t.root);
    assert t.tree.Keys == {path};
    if Counted(s, map[], Some("")) {
      assert "" in s.tree;
      CountAdd(map[], path, h, path);
    }
  }

  // ---------------------------------------------------------------- a new leaf, and a handle at a node

  ghost function Leaf<H>(s: State<H>, n: Node<H>, leaf: Node<H>, rest: string, h: H, to: nat): State<H>
    requires n in s.info && rest != "" && to <= |s.info[n].children| == |s.info[n].indices|
  {
    var x := s.info[n];
    State(s.root,
          s.info[leaf := Info(Text(s, n), rest, "", [], Some(h), 1)]
                [n := x.(children := Moved(x.children + [leaf], to, |x.children|), indices :=
                    Moved(x.indices + [rest[0]], to, |x.children|))],
          s.tree[Text(s, n) + rest := leaf])
  }

  /** The way goes on at a node where no child leads on. */
  ghost predicate Leaves<H>(s: State<H>, n: Node<H>, leaf: Node<H>, rest: string, to: nat) {
    && Placed(s) && Linked(s) && Covered(s) && Current(s, n)
    && leaf !in s.info && rest != "" && to <= |s.info[n].children| == |s.info[n].indices| &&
        rest[0] !in s.info[n].indices
  }

  lemma LeafInfo<H>(s: State<H>, n: Node<H>, leaf: Node<H>, rest: string, h: H, to: nat)
    requires n in s.info && rest != "" && to <= |s.info[n].children| == |s.info[n].indices| && leaf !in s.info
    ensures var t, x, g := Leaf(s, n, leaf, rest, h, to), s.info[n], Text(s, n) + rest;
            && t.root == s.root && t.info.Keys == s.info.Keys + {leaf}
            && t.info[leaf] == Info(Text(s, n), rest, "", [], Some(h), 1)
            && t.info[n] == x.(children := Moved(x.children + [leaf], to, |x.children|), indices :=
                Moved(x.indices + [rest[0]], to, |x.children|))
            && (forall m :: m in s.info && m != n ==> t.info[m] == s.info[m])
            && (forall f :: f in t.tree <==> f in s.tree || f == g) && t.tree[g] == leaf
            && (forall f :: f in s.tree && f != g ==> t.tree[f] == s.tree[f])
            && Text(t, leaf) == g && (forall m :: m in s.info ==> Text(t, m) == Text(s, m))
  {
  }

  /** What it changes in the nodes. */
  lemma LeafNodes<H>(s: State<H>, n: Node<H>, leaf: Node<H>, rest: string, h: H, to: nat)
    requires n in s.info && rest != "" && to <= |s.info[n].children| == |s.info[n].indices| && leaf !in s.info
    ensures var t, x := Leaf(s, n, leaf, rest, h, to), s.info[n];
            && t.root == s.root && t.info.Keys == s.info.Keys + {leaf}
            && t.info[leaf] == Info(Text(s, n), rest, "", [], Some(h), 1)
            && t.info[n] == x.(children := Moved(x.children + [leaf], to, |x.children|), indices :=
                Moved(x.indices + [rest[0]], to, |x.children|))
            && (forall m :: m in s.info && m != n ==> t.info[m] == s.info[m])
  {
  }

  lemma LeafString<H>(s: State<H>, n: Node<H>, rest: string)
    requires n in s.info && rest != ""
    ensures var g := Text(s, n) + rest; Text(s, n) < g && g[|Text(s, n)|] == rest[0] && g != ""
  {
  }

  /** Nothing in the tree goes on from the new leaf, nor lies at it; what lies above it lies at or above the node. */
  lemma LeafNew<H>(s: State<H>, n: Node<H>, leaf: Node<H>, rest: string, to: nat)
    requires Leaves(s, n, leaf, rest, to)
    ensures forall f :: f in s.tree ==> !(Text(s, n) + rest <= f)
    ensures forall f :: f in s.tree && f < Text(s, n) + rest ==> f <= Text(s, n)
  {
    hide Placed, Linked, Covered, Text;
    var g := Text(s, n) + rest;
    LeafString(s, n, rest);
    forall f | f in s.tree ensures !(g <= f) && (f < g ==> f <= Text(s, n)) {
      if Text(s, n) < f && f[|Text(s, n)|] == rest[0] {
        Onward(s, Text(s, n), f, |s.info[n].indices|);
      }
    }
  }

  lemma LeafPlaced<H>(s: State<H>, n: Node<H>, leaf: Node<H>, rest: string, h: H, to: nat)
    requires Leaves(s, n, leaf, rest, to)
    ensures Placed(Leaf(s, n, leaf, rest, h, to))
  {
    hide Linked, Covered, Leaf, Text, Moved;
    var t := Leaf(s, n, leaf, rest, h, to);
    LeafInfo(s, n, leaf, rest, h, to);
    LeafString(s, n, rest);
    LeafNew(s, n, leaf, rest, to);
    PlacedAt(s, Text(s, n));
    forall f | f in t.tree ensures t.tree[f] in t.info && Text(t, t.tree[f]) == f && t.info[t.root].path <= f {
      if f in s.tree { PlacedAt(s, f); }
    }
    forall m | m in t.info && m != t.root ensures t.info[m].path != "" {}
  }

  lemma LeafLocal<H>(s: State<H>, n: Node<H>, leaf: Node<H>, rest: string, h: H, to: nat, f: string)
    requires Leaves(s, n, leaf, rest, to) && f in s.tree
    ensures s.tree[f] in s.info && Local(Leaf(s, n, leaf, rest, h, to), s.tree[f])
  {
    hide Placed, Linked, Covered, Leaf, Text, Moved;
    var t, m := Leaf(s, n, leaf, rest, h, to), s.tree[f];
    LeafInfo(s, n, leaf, rest, h, to);
    LeafNew(s, n, leaf, rest, to);
    PlacedAt(s, f);
    LocalAt(s, f);
    var k := |s.info[n].children|;
    MovedAt(s.info[n].children + [leaf], to, k);
    MovedAt(s.info[n].indices + [rest[0]], to, k);
    forall j | 0 <= j < |t.info[m].children| ensures Child(t, m, j) {
      var i := if m == n then Source(to, k, j) else j;
      if m != n || i < k { ChildTree(s, f, i); }
    }
    if m == n {
      Distinct(s.info[n].indices + [rest[0]], to, k);
    }
  }

  lemma LeafLinked<H>(s: State<H>, n: Node<H>, leaf: Node<H>, rest: string, h: H, to: nat)
    requires Leaves(s, n, leaf, rest, to)
    ensures Linked(Leaf(s, n, leaf, rest, h, to))
  {
    hide Placed, Linked, Covered, Leaf, Text, Moved, Local;
    var t := Leaf(s, n, leaf, rest, h, to);
    LeafInfo(s, n, leaf, rest, h, to);
    LeafNew(s, n, leaf, rest, to);
    forall f | f in t.tree ensures t.tree[f] in t.info && Local(t, t.tree[f]) {
      if f in s.tree { LeafLocal(s, n, leaf, rest, h, to, f); } else { Childless(t, leaf); }
    }
    LinkedFrom(t);
  }

  lemma Childless<H>(s: State<H>, n: Node<H>)
    requires n in s.info && s.info[n].children == [] && s.info[n].indices == ""
    ensures Local(s, n)
  {
  }

  lemma LeafLeads<H>(s: State<H>, n: Node<H>, leaf: Node<H>, rest: string, h: H, to: nat, f: string, g: string)
    requires Leaves(s, n, leaf, rest, to) && f in s.tree && g in s.tree && f < g
    ensures s.tree[f] in s.info && Leads(Leaf(s, n, leaf, rest, h, to), s.tree[f], g)
  {
    hide Placed, Linked, Covered, Leaf, Text, Moved, Leads;
    var t, m := Leaf(s, n, leaf, rest, h, to), s.tree[f];
    LeafInfo(s, n, leaf, rest, h, to);
    var j := LeadsTo(s, f, g);
    if m == n {
      MovedTo(s.info[n].children + [leaf], to, |s.info[n].children|, j);
      LeadsBy(t, m, Target(to, |s.info[n].children|, j), g);
    } else {
      LeadsBy(t, m, j, g);
    }
  }

  lemma LeadsOn<H>(s: State<H>, n: Node<H>, f: string, g: string)
    requires n in s.info && Leads(s, n, f) && f <= g
    ensures Leads(s, n, g)
  {
  }

  lemma LeafCovered<H>(s: State<H>, n: Node<H>, leaf: Node<H>, rest: string, h: H, to: nat)
    requires Leaves(s, n, leaf, rest, to)
    ensures Covered(Leaf(s, n, leaf, rest, h, to))
  {
    hide Placed, Linked, Covered, Leaf, Text, Moved, Leads;
    var t, k := Leaf(s, n, leaf, rest, h, to), |s.info[n].children|;
    LeafInfo(s, n, leaf, rest, h, to);
    LeafString(s, n, rest);
    LeafNew(s, n, leaf, rest, to);
    forall f, g | f in t.tree && g in t.tree && f < g ensures t.tree[f] in t.info && Leads(t, t.tree[f], g) {
      if f in s.tree {
        if g in s.tree {
          LeafLeads(s, n, leaf, rest, h, to, f, g);
        } else if f == Text(s, n) {
          MovedTo(s.info[n].children + [leaf], to, k, k);
          LeadsBy(t, n, to, g);
        } else {
          LeafLeads(s, n, leaf, rest, h, to, f, Text(s, n));
          LeadsOn(t, t.tree[f], Text(s, n), g);
        }
      }
    }
    CoveredFrom(t);
  }

  lemma LeafHolds<H>(s: State<H>, n: Node<H>, leaf: Node<H>, rest: string, h: H, to: nat, content: map<string, H>)
    requires Leaves(s, n, leaf, rest, to) && Holds(s, content)
    ensures Holds(Leaf(s, n, leaf, rest, h, to), content[Text(s, n) + rest := h])
  {
    hide Placed, Linked, Covered, Leaf, Text, Moved;
    LeafInfo(s, n, leaf, rest, h, to);
    LeafString(s, n, rest);
    LeafNew(s, n, leaf, rest, to);
  }

  lemma LeafOrdered<H>(s: State<H>, n: Node<H>, leaf: Node<H>, rest: string, h: H, to: nat)
    requires Leaves(s, n, leaf, rest, to) && Ordered(s)
    requires Descending(Leaf(s, n, leaf, rest, h, to), Leaf(s, n, leaf, rest, h, to).info[n].children)
    ensures Ordered(Leaf(s, n, leaf, rest, h, to))
  {
    hide Placed, Linked, Covered, Leaf, Text, Moved;
    var t := Leaf(s, n, leaf, rest, h, to);
    LeafInfo(s, n, leaf, rest, h, to);
    LeafNew(s, n, leaf, rest, to);
    forall f | f in t.tree ensures t.tree[f] in t.info && Descending(t, t.info[t.tree[f]].children) {
      if f in s.tree && s.tree[f] != n {
        assert Descending(s, s.info[s.tree[f]].children);
        assert t.info[s.tree[f]].children == s.info[s.tree[f]].children;
      }
    }
  }

  lemma LeafCounted<H>(s: State<H>, n: Node<H>, leaf: Node<H>, rest: string, h: H, to: nat, content: map<string, H>)
    requires Leaves(s, n, leaf, rest, to) && Holds(s, content) && Counted(s, content, Some(Text(s, n)))
    ensures Counted(Leaf(s, n, leaf, rest, h, to), content, Some(Text(s, n) + rest))
  {
    hide Placed, Linked, Covered, Leaf, Text, Moved, Count;
    var t, g := Leaf(s, n, leaf, rest, h, to), Text(s, n) + rest;
    LeafInfo(s, n, leaf, rest, h, to);
    LeafString(s, n, rest);
    LeafNew(s, n, leaf, rest, to);
    CountNone(content, g);
    forall f | f in t.tree
      ensures t.tree[f] in t.info && t.info[t.tree[f]].priority == Count(content, f) + if f <= g then 1 else 0
    {
      if f in s.tree && f <= Text(s, n) { assert f <= g; }
    }
  }

  lemma CountNone<H>(content: map<string, H>, f: string)
    requires forall k :: k in content ==> !(f <= k)
    ensures Count(content, f) == 0
  {
  }

  /** With its own route, every count is exact. */
  lemma CountDone<H>(s: State<H>, content: map<string, H>, path: string, h: H)
    requires Counted(s, content, Some(path)) && path !in content
    ensures Counted(s, content[path := h], None)
  {
    hide Count;
    forall f | f in s.tree ensures s.tree[f] in s.info && s.info[s.tree[f]].priority == Count(content[path := h], f) {
      CountAdd(content, path, h, f);
    }
  }

  lemma LeafKeeps<H>(s: State<H>, n: Node<H>, leaf: Node<H>, rest: string, h: H, to: nat, content: map<string, H>)
    requires Leaves(s, n, leaf, rest, to) && Shape(s, content)
    requires Descending(Leaf(s, n, leaf, rest, h, to), Leaf(s, n, leaf, rest, h, to).info[n].children)
    ensures var t, g := Leaf(s, n, leaf, rest, h, to), Text(s, n) + rest;
            && g !in content && Shape(t, content[g := h])
            && (Counted(s, content, Some(Text(s, n))) ==> Counted(t, content[g := h], None))
  {
    hide Linked, Covered, Ordered, Counted, Leaf, Text, Moved;
    LeafPlaced(s, n, leaf, rest, h, to);
    LeafLinked(s, n, leaf, rest, h, to);
    LeafCovered(s, n, leaf, rest, h, to);
    LeafHolds(s, n, leaf, rest, h, to, content);
    LeafOrdered(s, n, leaf, rest, h, to);
    LeafNew(s, n, leaf, rest, to);
    if Counted(s, content, Some(Text(s, n))) {
      LeafCounted(s, n, leaf, rest, h, to, content);
      CountDone(Leaf(s, n, leaf, rest, h, to), content, Text(s, n) + rest, h);
    }
  }

  ghost function WithHandle<H>(s: State<H>, n: Node<H>, h: H): State<H>
    requires n in s.info
  {
    s.(info := s.info[n := s.info[n].(handle := Some(h))])
  }

  lemma HandleInfo<H>(s: State<H>, n: Node<H>, h: H)
    requires n in s.info
    ensures var t := WithHandle(s, n, h);
            && t.root == s.root && t.tree == s.tree && t.info.Keys == s.info.Keys
            && (forall m :: m in s.info && m != n ==> t.info[m] == s.info[m]) &&
                t.info[n] == s.info[n].(handle := Some(h))
            && forall m :: m in s.info ==> Text(t, m) == Text(s, m)
  {
  }

  lemma HandleShape<H>(s: State<H>, n: Node<H>, h: H)
    requires Placed(s) && Linked(s) && Covered(s) && n in s.info
    ensures var t := WithHandle(s, n, h); Placed(t) && Linked(t) && Covered(t)
  {
    hide Linked, Covered, WithHandle, Text, Local, Leads;
    var t := WithHandle(s, n, h);
    HandleInfo(s, n, h);
    forall f | f in t.tree ensures t.tree[f] in t.info && Local(t, t.tree[f]) { HandleLocal(s, n, h, f); }
    forall f, g | f in t.tree && g in t.tree && f < g ensures t.tree[f] in t.info && Leads(t, t.tree[f], g) {
      var j := LeadsTo(s, f, g);
      LeadsBy(t, t.tree[f], j, g);
    }
    LinkedFrom(t);
    CoveredFrom(t);
  }

  lemma HandleLocal<H>(s: State<H>, n: Node<H>, h: H, f: string)
    requires Placed(s) && Linked(s) && f in s.tree && n in s.info
    ensures s.tree[f] in s.info && Local(WithHandle(s, n, h), s.tree[f])
  {
    hide Placed, Linked, WithHandle, Text;
    PlacedAt(s, f);
    HandleInfo(s, n, h);
    LocalAt(s, f);
    forall j | 0 <= j < |s.info[s.tree[f]].children| ensures Child(WithHandle(s, n, h), s.tree[f], j) {
      ChildTree(s, f, j);
    }
  }

  lemma HandleKeeps<H>(s: State<H>, n: Node<H>, h: H, content: map<string, H>)
    requires Shape(s, content) && Current(s, n) && Text(s, n) !in content && Text(s, n) != ""
    ensures var t, g := WithHandle(s, n, h), Text(s, n);
            Shape(t, content[g := h]) && (Counted(s, content, Some(g)) ==> Counted(t, content[g := h], None))
  {
    hide Placed, Linked, Covered, WithHandle, Text, Count, Ordered, Holds, Counted;
    var t, g := WithHandle(s, n, h), Text(s, n);
    HandleShape(s, n, h);
    HandleOrdered(s, n, h);
    HandleHolds(s, n, h, content);
    if Counted(s, content, Some(g)) {
      HandleCounted(s, n, h, content);
      CountDone(t, content, g, h);
    }
  }

  lemma HandleOrdered<H>(s: State<H>, n: Node<H>, h: H)
    requires Ordered(s) && n in s.info
    ensures Ordered(WithHandle(s, n, h))
  {
    hide WithHandle, Text;
    var t := WithHandle(s, n, h);
    HandleInfo(s, n, h);
    forall f | f in t.tree ensures t.tree[f] in t.info && Descending(t, t.info[t.tree[f]].children) {
      assert Descending(s, s.info[s.tree[f]].children);
    }
  }

  lemma HandleHolds<H>(s: State<H>, n: Node<H>, h: H, content: map<string, H>)
    requires Placed(s) && Holds(s, content) && Current(s, n) && Text(s, n) != ""
    ensures Holds(WithHandle(s, n, h), content[Text(s, n) := h])
  {
    hide Placed, WithHandle, Text;
    HandleInfo(s, n, h);
    forall f | f in s.tree && f != Text(s, n) ensures s.tree[f] != n { Elsewhere(s, f, n); }
  }

  lemma HandleCounted<H>(s: State<H>, n: Node<H>, h: H, content: map<string, H>)
    requires n in s.info && Counted(s, content, Some(Text(s, n)))
    ensures Counted(WithHandle(s, n, h), content, Some(Text(s, n)))
  {
    hide WithHandle, Text, Count;
    HandleInfo(s, n, h);
  }

  // ---------------------------------------------------------------- in place

  ghost predicate Same<H>(n: Node<H>, x: Info<H>)
    reads n
  {
    n.path == x.path && n.indices == x.indices && n.children == x.children && n.handle == x.handle &&
        n.priority == x.priority
  }

  class Tree<H> {
    const root: Node<H>
    ghost var s: State<H>
    ghost var content: map<string, H>

    /** The nodes are as the value says. */
    ghost predicate Mirrors()
      reads this, s.info.Keys
    {
      s.root == root && forall n :: n in s.info ==> Same(n, s.info[n])
    }

    ghost predicate Valid()
      reads this, s.info.Keys
    {
      Mirrors() && Shape(s, content)
    }

    constructor ()
      ensures Valid() && Counted(s, content, None) && content == map[] && fresh(s.info.Keys)
    {
      var r := new Node<H>("", "", [], None, 0);
      root := r;
      s := State(r, map[r := Info("", "", "", [], None, 0)], map["" := r]);
      content := map[];
      new;
      StartKeeps(s);
    }

    /** The place of a byte among the children's first bytes, or the number of children. */
    method Branch(n: Node<H>, c: char) returns (i: nat)
      ensures i <= |n.indices|
      ensures if i < |n.indices| then n.indices[i] == c else c !in n.indices
    {
      i := 0;
      while i < |n.indices|
        invariant i <= |n.indices| && c !in n.indices[..i]
      {
        if n.indices[i] == c {
          return;
        }
        i := i + 1;
      }
    }

    /** What a node of the tree is: it holds the handle of its text, stands for each of its children under that child's
        first byte, and has them in non-increasing order of priority. */
    lemma NodeMeans(f: string)
      requires Valid() && f in s.tree
      ensures var n := s.tree[f];
              && (n.handle == if f in content then Some(content[f]) else None) && |n.indices| == |n.children|
              && (forall i, j :: 0 <= i < j < |n.children| ==>
                    n.indices[i] != n.indices[j] && n.children[i].priority >= n.children[j].priority)
              && (forall i :: 0 <= i < |n.children| ==>
                    var c := n.children[i];
                    c.path != "" && c.path[0] == n.indices[i] && f + c.path in s.tree && s.tree[f + c.path] == c)
              && (Counted(s, content, None) ==> n.priority == |set k | k in content && f <= k|)
    {
      var n := s.tree[f];
      assert Same(n, s.info[n]) && Local(s, n) && Descending(s, s.info[n].children);
      hide Covered;
      forall i | 0 <= i < |n.children|
        ensures n.children[i] in s.info && Same(n.children[i], s.info[n.children[i]])
        ensures n.children[i].path != "" && n.children[i].path[0] == n.indices[i]
        ensures f + n.children[i].path in s.tree && s.tree[f + n.children[i].path] == n.children[i]
      {
        assert Child(s, n, i);
      }
    }

    /** Every path that has a handle ends at a node. */
    lemma PathsEndAtNodes()
      requires Valid()
      ensures forall p :: p in content ==> p in s.tree
    {
    }

    /** The handle registered for a path, and none for any other path. */
    method GetValue(path: string) returns (r: Option<H>)
      requires Valid()
      ensures r == Lookup(content, path)
      ensures path in content ==> r == Some(content[path])
      ensures path !in content ==> r == None
    {
      hide Linked, Covered, Ordered, Text, Placed, Current;
      var n, rest := root, path;
      RootCurrent(s);
      while true
        invariant n in s.info && Current(s, n) && s.info[n].prefix + rest == path &&
                    (path in s.tree ==> Text(s, n) <= path)
        invariant n != root ==> n.path != ""
        decreases |rest|, if n == root then 1 else 0
      {
        CurrentText(s, n);
        Siblings(s, n);
        if |rest| > |n.path| {
          if rest[..|n.path|] == n.path {
            GoOn(s.info[n].prefix, n.path, rest, path);
            rest := rest[|n.path|..];
            var i := Branch(n, rest[0]);
            if path in s.tree { Onward(s, Text(s, n), path, i); }
            if i == |n.indices| {
              return None;
            }
            ChildCurrent(s, n, i);
            n := n.children[i];
          } else {
            Apart(s.info[n].prefix, n.path, rest, path);
            return None;
          }
        } else if rest == n.path {
          return n.handle;
        } else {
          Apart(s.info[n].prefix, n.path, rest, path);
          return None;
        }
      }
    }

    // -------------------------------------------------------------- adding a route

    method SplitEdge(n: Node<H>, i: nat)
      requires Valid() && Current(s, n) && i < |n.path| && (n != root ==> i > 0) && n.priority > 0
      modifies this`s, n
      ensures Valid() && Current(s, n) && fresh(s.info.Keys - old(s.info.Keys)) && s.info.Keys >= old(s.info.Keys)
      ensures n.path == old(n.path)[..i] && n.handle == None && n.priority > 0 &&
                s.info[n].prefix == old(s.info[n].prefix)
      ensures old(Counted(s, content, Some(Text(s, n)))) ==> Counted(s, content, Some(Text(s, n)))
      ensures s.root == old(s.root)
    {
      hide Counted, Split, Text, Shape, Current, Same;
      CurrentText(s, n);
      SameFields(n, s.info[n]);
      var child := new Node<H>(n.path[i..], n.indices, n.children, n.handle, n.priority - 1);
      SplitStep(s, n, i, child, content);
      ghost var t := Split(s, n, i, child);
      n.Shorten(i, child);
      SameIs(child, t.info[child]);
      SameIs(n, t.info[n]);
      assert forall m :: m in s.info && m != n ==> Same(m, s.info[m]);
      s := t;
    }

    /** Counts the new route below a child, and goes there. */
    method Descend(n: Node<H>, i: nat) returns (child: Node<H>)
      requires Valid() && Current(s, n) && i < |n.children| == |n.indices|
      modifies this`s, n, n.children[i]
      ensures Valid() && Current(s, child) && s.info.Keys == old(s.info.Keys) && s.root == old(s.root)
      ensures child == old(n.children)[i] && s.info[child].prefix == old(Text(s, n)) &&
                child.path == old(n.children[i].path) && child.path != "" && child != root && child.priority > 0
      ensures old(Counted(s, content, Some(Text(s, n)))) ==> Counted(s, content, Some(Text(s, child)))
    {
      hide Counted, Bump, Text, Shape, Current, Moved, Sorted, Descending;
      CurrentText(s, n);
      CanBump(s, n, i, content);
      child := n.children[i];
      FromDescending(s, n.children);
      var newPos := IncrementPrio(n, i, child);
      BumpStep(old(s), n, i, newPos, content);
    }

    /** A new child for a path that no child goes on with. */
    method NewLeaf(n: Node<H>, rest: string, handle: H)
      requires Valid() && Current(s, n) && rest != "" && rest[0] !in n.indices
      modifies this`s, this`content, n
      ensures Valid() && fresh(s.info.Keys - old(s.info.Keys)) && s.info.Keys >= old(s.info.Keys)
      ensures old(Text(s, n)) + rest !in old(content) && content == old(content)[old(Text(s, n)) + rest := handle]
      ensures old(Counted(s, content, Some(Text(s, n)))) ==> Counted(s, content, None)
    {
      hide Counted, Leaf, Text, Shape, Current, Moved, Sorted, Descending;
      CurrentText(s, n);
      CanGrow(s, n, content);
      FromDescending(s, n.children);
      var child := new Node<H>("", "", [], None, 0);
      ghost var newPos := Grow(n, rest, handle, child);
      content := content[Text(old(s), n) + rest := handle];
      LeafStep(old(s), n, child, rest, handle, newPos, old(content));
    }

    method Grow(n: Node<H>, rest: string, handle: H, child: Node<H>) returns (ghost newPos: nat)
      requires Mirrors() && n in s.info && rest != "" && child !in s.info && |n.children| == |n.indices| &&
                 Sorted(n.children) && n !in n.children
      requires (forall c :: c in n.children ==> c in s.info) && forall i, j :: 0 <= i < j < |n.children| ==>
                 n.children[i] != n.children[j]
      requires child.indices == "" && child.children == [] && child.priority == 0
      modifies this`s, n, child
      ensures newPos <= old(|n.children|) && Mirrors() && s == Leaf(old(s), n, child, rest, handle, newPos) &&
                Descending(s, s.info[n].children)
    {
      hide Leaf, Moved, Sorted, Descending, Text, Same;
      ghost var cs, x := n.children, s.info[n];
      assert Same(n, x);
      SameFields(n, x);
      newPos := n.Append(child, rest[0]);
      child.path := rest;
      child.handle := Some(handle);
      LeafNodes(s, n, child, rest, handle, newPos);
      ghost var t := Leaf(s, n, child, rest, handle, newPos);
      SameIs(child, t.info[child]);
      SameIs(n, t.info[n]);
      assert forall m :: m in s.info && m != n ==> Same(m, s.info[m]);
      s := t;
      MovedWithin(cs + [child], newPos, |cs|, s.info.Keys);
      SameHere(s, n.children);
      ToDescending(s, n.children);
    }

    method CommonPrefix(a: string, b: string) returns (i: nat)
      ensures i <= |a| && i <= |b| && a[..i] == b[..i] && (i < |a| && i < |b| ==> a[i] != b[i])
    {
      i := 0;
      while i < |a| && i < |b| && a[i] == b[i]
        invariant i <= |a| && i <= |b| && a[..i] == b[..i]
      {
        i := i + 1;
      }
    }

    /** Registers a handle for a new path; for one that has a handle the original panics, after every node on the way
        has counted one more.  The counts are exact afterwards just when the path was new. */
    method AddRoute(path: string, handle: H) returns (added: bool)
      requires Valid() && Plain(path) && path != ""
      modifies this, s.info.Keys
      ensures Valid() && fresh(s.info.Keys - old(s.info.Keys)) && s.info.Keys >= old(s.info.Keys)
      ensures added <==> path !in old(content)
      ensures content == if added then old(content)[path := handle] else old(content)
      ensures old(Counted(s, content, None)) ==>
                && Counted(s, content, if added then None else Some(path))
                && (Counted(s, content, None) <==> added)
                && root in s.info && s.info[root].priority == |content| + (if added then 0 else 1)
    {
      hide Counted, Text, Shape, Current, Same;
      RootIsThere(s, content);
      CountRoot();
      SameFields(root, s.info[root]);
      if |root.path| > 0 || |root.children| > 0 {
        added := Walk(path, handle);
      } else {
        FirstRoute(path, handle);
        added := true;
      }
      if old(Counted(s, content, None)) {
        RootIsThere(s, content);
        if added {
          RootCounts(s, content);
        } else {
          RootOvercounts(s, content, path);
        }
      }
    }

    method FirstRoute(path: string, handle: H)
      requires Valid() && root in s.info && root.path == "" && root.children == [] && path != ""
      modifies this`s, this`content, root
      ensures Valid() && s.info.Keys == old(s.info.Keys) && old(content) == map[] && content == map[path := handle]
      ensures old(Counted(s, content, Some(Text(s, root)))) ==> Counted(s, content, None)
    {
      hide Counted, Text, Shape, First;
      NoRoutes(s, content);
      FirstStep(s, path, handle);
      root.path := path;
      root.handle := Some(handle);
      s, content := First(s, path, handle), map[path := handle];
    }

    method CountRoot()
      requires Valid() && root in s.info
      modifies this`s, root`priority
      ensures Valid() && s.info.Keys == old(s.info.Keys) && Current(s, root) && root.priority > 0 &&
                s.info[root].prefix == ""
      ensures old(Counted(s, content, None)) ==> Counted(s, content, Some(Text(s, root)))
    {
      hide Counted, Text, Shape, Current, BumpRoot;
      BumpRootKeeps(s, content);
      BumpRootInfo(s);
      root.priority := root.priority + 1;
      s := BumpRoot(s);
    }

    method Walk(path: string, handle: H) returns (added: bool)
      requires Valid() && root in s.info && Current(s, root) && root.priority > 0 &&
                 s.info[root].prefix == "" && path != ""
      modifies this, s.info.Keys
      ensures Valid() && fresh(s.info.Keys - old(s.info.Keys)) && s.info.Keys >= old(s.info.Keys)
      ensures added <==> path !in old(content)
      ensures content == if added then old(content)[path := handle] else old(content)
      ensures old(Counted(s, content, Some(Text(s, root)))) ==> Counted(s, content, if added then None else Some(path))
    {
      hide Counted, Text, Shape, Current, Mirrors;
      var n, rest := root, path;
      var done := false;
      added := false;
      ghost var exact := Counted(s, content, Some(Text(s, root)));
      while !done
        invariant Valid() && fresh(s.info.Keys - old(s.info.Keys)) && s.info.Keys >= old(s.info.Keys)
        invariant !done ==>
                    content == old(content) && At(n, rest, path) && (exact ==> Counted(s, content, Some(Text(s, n))))
        invariant done ==> (added <==> path !in old(content)) && content == if added then old(content)[path := handle]
                    else old(content)
        invariant done && exact ==> Counted(s, content, if added then None else Some(path))
        decreases !done, |rest|, if n == root then 1 else 0
      {
        n, rest, done, added := Step(n, rest, path, handle);
      }
    }

    /** A node reached for a path, and what is left of the path from its beginning on. */
    ghost predicate At(n: Node<H>, rest: string, path: string)
      reads this, n
    {
      && n in s.info && Current(s, n) && s.info[n].prefix + rest == path && n.priority > 0
      && (n != root ==> n.path != "" && rest != "" && rest[0] == n.path[0])
    }

    /** One round: at the node itself the route ends there or in a new child, or the walk goes on below it. */
    method Step(n: Node<H>, rest: string, path: string, handle: H)
        returns (next: Node<H>, left: string, done: bool, added: bool)
      requires Valid() && At(n, rest, path) && path != ""
      modifies this, s.info.Keys
      ensures Valid() && fresh(s.info.Keys - old(s.info.Keys)) && s.info.Keys >= old(s.info.Keys)
      ensures !done ==> content == old(content) && At(next, left, path)
                        && (|left| < |rest| || (|left| == |rest| && n == root && next != root))
      ensures !done && old(Counted(s, content, Some(Text(s, n)))) ==> Counted(s, content, Some(Text(s, next)))
      ensures done ==> (added <==> path !in old(content)) && content == if added then old(content)[path := handle]
                else old(content)
      ensures done && old(Counted(s, content, Some(Text(s, n)))) ==>
                Counted(s, content, if added then None else Some(path))
    {
      hide Counted, Text, Shape, Current, Same;
      SameFields(n, s.info[n]);
      var i := CommonPrefix(rest, n.path);
      assert i == |n.path| ==> n.path == rest[..i];
      if i < |n.path| {
        SplitEdge(n, i);
      }
      SameFields(n, s.info[n]);
      CurrentText(s, n);
      if i < |rest| {
        assert (s.info[n].prefix + rest[..i]) + rest[i..] == path;
        next, left, done, added := Onwards(n, rest[i..], path, handle);
      } else {
        assert rest[..i] == rest;
        next, left, done := n, rest, true;
        added := PutHandle(n, handle);
      }
    }

    /** Below the node: to the child under the next byte, or a new one. */
    method Onwards(n: Node<H>, rest: string, path: string, handle: H)
        returns (next: Node<H>, left: string, done: bool, added: bool)
      requires Valid() && Current(s, n) && rest != "" && Text(s, n) + rest == path
      modifies this, s.info.Keys
      ensures Valid() && fresh(s.info.Keys - old(s.info.Keys)) && s.info.Keys >= old(s.info.Keys)
      ensures !done ==> content == old(content) && At(next, left, path) && left == rest && next != root
      ensures !done && old(Counted(s, content, Some(Text(s, n)))) ==> Counted(s, content, Some(Text(s, next)))
      ensures done ==> added && path !in old(content) && content == old(content)[path := handle]
      ensures done && old(Counted(s, content, Some(Text(s, n)))) ==> Counted(s, content, None)
    {
      hide Counted, Text, Shape, Current, Same;
      CurrentText(s, n);
      SameFields(n, s.info[n]);
      next, left, added := n, rest, false;
      var j := Branch(n, rest[0]);
      Matching(s, n, j, content);
      done := j == |n.indices|;
      if done {
        NewLeaf(n, rest, handle);
        added := true;
      } else {
        SameFields(n.children[j], s.info[n.children[j]]);
        next := Descend(n, j);
      }
    }

    method PutHandle(n: Node<H>, handle: H) returns (added: bool)
      requires Valid() && Current(s, n) && Text(s, n) != ""
      modifies this`s, this`content, n
      ensures Valid() && s.info.Keys == old(s.info.Keys)
      ensures added <==> old(Text(s, n)) !in old(content)
      ensures content == if added then old(content)[old(Text(s, n)) := handle] else old(content)
      ensures old(Counted(s, content, Some(Text(s, n)))) ==>
                Counted(s, content, if added then None else Some(old(Text(s, n))))
    {
      hide Counted, Text, Shape, Current;
      CurrentText(s, n);
      HandleThere(s, n, content);
      added := n.handle.None?;
      if added {
        HandleKeeps(s, n, handle, content);
        HandleInfo(s, n, handle);
        ghost var path := Text(s, n);
        n.handle := Some(handle);
        s, content := WithHandle(s, n, handle), content[path := handle];
      }
    }

    method IncrementPrio(n: Node<H>, i: nat, child: Node<H>) returns (newPos: nat)
      requires Mirrors() && n in s.info && i < |n.children| == |n.indices| && child == n.children[i] &&
                 Sorted(n.children) && n !in n.children
      requires (forall c :: c in n.children ==> c in s.info) && forall i, j :: 0 <= i < j < |n.children| ==>
                 n.children[i] != n.children[j]
      modifies this`s, n, child
      ensures newPos <= i && Mirrors() && s == Bump(old(s), n, i, newPos) && Descending(s, s.info[n].children) &&
                child.path == old(child.path)
    {
      hide Bump, Moved, Sorted, Descending, Same;
      SameFields(n, s.info[n]);
      SameFields(child, s.info[child]);
      newPos := n.IncrementChildPrio(i, child);
      BumpInfo(s, n, i, newPos);
      ghost var t := Bump(s, n, i, newPos);
      SameIs(child, t.info[child]);
      SameIs(n, t.info[n]);
      assert forall m :: m in s.info && m != n && m != child ==> Same(m, s.info[m]);
      s := t;
      MovedWithin(old(n.children), newPos, i, s.info.Keys);
      SameHere(s, n.children);
      ToDescending(s, n.children);
    }
  }

  lemma SameFields<H>(n: Node<H>, x: Info<H>)
    requires Same(n, x)
    ensures n.path == x.path && n.indices == x.indices && n.children == x.children && n.handle == x.handle &&
              n.priority == x.priority
  {
  }

  lemma SameIs<H>(n: Node<H>, x: Info<H>)
    requires n.path == x.path && n.indices == x.indices && n.children == x.children && n.handle == x.handle &&
               n.priority == x.priority
    ensures Same(n, x)
  {
  }

  lemma SameHere<H>(s: State<H>, cs: seq<Node<H>>)
    requires forall n :: n in s.info ==> Same(n, s.info[n])
    requires forall c :: c in cs ==> c in s.info
    ensures forall c :: c in cs ==> c in s.info && c.priority == s.info[c].priority
  {
  }

  lemma CanGrow<H>(s: State<H>, n: Node<H>, content: map<string, H>)
    requires Shape(s, content) && Current(s, n)
    ensures |s.info[n].children| == |s.info[n].indices|
    ensures n !in s.info[n].children && (forall c :: c in s.info[n].children ==> c in s.info)
    ensures forall i, j :: 0 <= i < j < |s.info[n].children| ==> s.info[n].children[i] != s.info[n].children[j]
    ensures Descending(s, s.info[n].children)
  {
    hide Placed, Linked, Covered, Ordered, Holds, Descending, Text;
    Siblings(s, n);
    OrderedHere(s, n);
  }

  lemma LeafStep<H>(s: State<H>, n: Node<H>, leaf: Node<H>, rest: string, h: H, to: nat, content: map<string, H>)
    requires Shape(s, content) && Current(s, n) && leaf !in s.info && rest != ""
    requires to <= |s.info[n].children| == |s.info[n].indices| && rest[0] !in s.info[n].indices
    requires Descending(Leaf(s, n, leaf, rest, h, to), Leaf(s, n, leaf, rest, h, to).info[n].children)
    ensures var t, g := Leaf(s, n, leaf, rest, h, to), Text(s, n) + rest;
            && g !in content && Shape(t, content[g := h]) && t.root == s.root && t.info.Keys == s.info.Keys + {leaf}
            && (Counted(s, content, Some(Text(s, n))) ==> Counted(t, content[g := h], None))
  {
    hide Placed, Linked, Covered, Ordered, Holds, Counted, Leaf, Text, Moved, Descending;
    LeafKeeps(s, n, leaf, rest, h, to, content);
    LeafInfo(s, n, leaf, rest, h, to);
  }

  lemma RootIsThere<H>(s: State<H>, content: map<string, H>)
    requires Shape(s, content)
    ensures s.root in s.info
  {
  }

  lemma NoRoutes<H>(s: State<H>, content: map<string, H>)
    requires Shape(s, content) && s.root in s.info && s.info[s.root].path == "" && s.info[s.root].children == []
    ensures content == map[] && Text(s, s.root) == ""
  {
  }

  lemma FirstStep<H>(s: State<H>, path: string, h: H)
    requires Shape(s, map[]) && s.root in s.info && s.info[s.root].path == "" &&
               s.info[s.root].children == [] && path != ""
    ensures var t := First(s, path, h);
            && Shape(t, map[path := h]) && t.root == s.root && t.info.Keys == s.info.Keys
            && (forall m :: m in s.info && m != s.root ==> t.info[m] == s.info[m])
            && t.info[s.root] == s.info[s.root].(path := path, handle := Some(h))
            && (Counted(s, map[], Some("")) ==> Counted(t, map[path := h], None))
  {
    hide Counted, Shape;
    FirstKeeps(s, path, h);
  }

  /** What is known of the children when one is looked for by its first byte. */
  lemma Matching<H>(s: State<H>, n: Node<H>, j: nat, content: map<string, H>)
    requires Shape(s, content) && Current(s, n) && j <= |s.info[n].indices|
    ensures |s.info[n].indices| == |s.info[n].children|
    ensures j < |s.info[n].children| ==>
              var c := s.info[n].children[j];
              c in s.info && c != n && s.info[c].path != "" && s.info[c].path[0] == s.info[n].indices[j]
  {
    hide Linked, Covered, Ordered, Holds;
    Siblings(s, n);
    if j < |s.info[n].children| { ChildCurrent(s, n, j); }
  }

  lemma HandleThere<H>(s: State<H>, n: Node<H>, content: map<string, H>)
    requires Shape(s, content) && Current(s, n)
    ensures s.info[n].handle.Some? <==> Text(s, n) in content
  {
  }

  lemma SplitStep<H>(s: State<H>, n: Node<H>, i: nat, child: Node<H>, content: map<string, H>)
    requires Shape(s, content) && Current(s, n) && i < |s.info[n].path| && (n != s.root ==> i > 0) &&
               s.info[n].priority > 0 && child !in s.info
    ensures var t, x := Split(s, n, i, child), s.info[n];
            && Shape(t, content) && Current(t, n) && t.root == s.root && t.info.Keys == s.info.Keys + {child}
            && t.info[child] == Info(t.info[child].prefix, x.path[i..], x.indices, x.children, x.handle, x.priority - 1)
            && t.info[n] == Info(x.prefix, x.path[..i], [x.path[i]], [child], None, x.priority)
            && (forall m :: m in s.info && m != n ==> t.info[m] == s.info[m])
            && (Counted(s, content, Some(Text(s, n))) ==> Counted(t, content, Some(Text(t, n))))
  {
    hide Placed, Linked, Covered, Ordered, Holds, Counted, Split, Text, Cut;
    SplitKeeps(s, n, i, child, content);
    SplitInfo(s, n, i, child);
  }

  /** What counting a route below a child asks for. */
  lemma CanBump<H>(s: State<H>, n: Node<H>, i: nat, content: map<string, H>)
    requires Shape(s, content) && Current(s, n) && i < |s.info[n].children| == |s.info[n].indices|
    ensures n !in s.info[n].children && (forall c :: c in s.info[n].children ==> c in s.info)
    ensures forall i, j :: 0 <= i < j < |s.info[n].children| ==> s.info[n].children[i] != s.info[n].children[j]
    ensures Descending(s, s.info[n].children)
  {
    hide Placed, Linked, Covered, Ordered, Holds, Descending, Text;
    Siblings(s, n);
    OrderedHere(s, n);
  }

  lemma BumpStep<H>(s: State<H>, n: Node<H>, i: nat, to: nat, content: map<string, H>)
    requires Shape(s, content) && Current(s, n) && to <= i < |s.info[n].children| == |s.info[n].indices|
    requires s.info[n].children[i] in s.info && s.info[n].children[i] != n
    requires Descending(Bump(s, n, i, to), Bump(s, n, i, to).info[n].children)
    ensures var t, c := Bump(s, n, i, to), s.info[n].children[i];
            && Shape(t, content) && Current(t, c) && t.root == s.root && t.info.Keys == s.info.Keys
            && t.info[c].prefix == Text(s, n) && t.info[c].path != "" && c != s.root && t.info[c].priority > 0
            && (Counted(s, content, Some(Text(s, n))) ==> Counted(t, content, Some(Text(t, c))))
  {
    hide Placed, Linked, Covered, Ordered, Holds, Counted, Bump, Text, Moved, Descending;
    BumpKeeps(s, n, i, to, content);
    BumpInfo(s, n, i, to);
  }

  lemma StartKeeps<H>(s: State<H>)
    requires s.info.Keys == {s.root} && s.info[s.root] == Info("", "", "", [], None, 0) && s.tree == map["" := s.root]
    ensures Shape(s, map[]) && Counted(s, map[], None)
  {
    assert Text(s, s.root) == "";
    assert Local(s, s.root);
  }

  lemma RootCurrent<H>(s: State<H>)
    requires Placed(s)
    ensures s.root in s.info && Current(s, s.root) && s.info[s.root].prefix == "" &&
              Text(s, s.root) == s.info[s.root].path
    ensures forall f :: f in s.tree ==> Text(s, s.root) <= f
  {
  }

  lemma CurrentText<H>(s: State<H>, n: Node<H>)
    requires Current(s, n)
    ensures n in s.info && Text(s, n) == s.info[n].prefix + s.info[n].path && Text(s, n) in s.tree &&
              s.tree[Text(s, n)] == n
  {
  }

  /** The remaining path starts with the node's own. */
  lemma GoOn(prefix: string, own: string, rest: string, path: string)
    requires prefix + rest == path && |rest| > |own| && rest[..|own|] == own
    ensures prefix + own < path && path[|prefix + own|] == rest[|own|] && (prefix + own) + rest[|own|..] == path
  {
  }

  /** It does not, so the path lies elsewhere. */
  lemma Apart(prefix: string, own: string, rest: string, path: string)
    requires prefix + rest == path && (if |rest| <= |own| then rest != own else rest[..|own|] != own)
    ensures !(prefix + own <= path)
  {
    assert path[|prefix|..] == rest;
    assert (prefix + own)[|prefix|..] == own;
  }

  lemma OrderedHere<H>(s: State<H>, n: Node<H>)
    requires Ordered(s) && Current(s, n)
    ensures Descending(s, s.info[n].children)
  {
  }

  lemma FromDescending<H>(s: State<H>, cs: seq<Node<H>>)
    requires Descending(s, cs) && forall c :: c in cs ==> c in s.info && c.priority == s.info[c].priority
    ensures Sorted(cs)
  {
  }

  lemma ToDescending<H>(s: State<H>, cs: seq<Node<H>>)
    requires Sorted(cs) && forall c :: c in cs ==> c in s.info && c.priority == s.info[c].priority
    ensures Descending(s, cs)
  {
  }

  // ---------------------------------------------------------------- whole runs

  /** The plain map that the routes make. */
  function Routes<H>(routes: seq<(string, H)>): map<string, H> {
    if routes == [] then map[]
    else
      var r := routes[|routes| - 1];
      Routes(routes[..|routes| - 1])[r.0 := r.1]
  }

  lemma {:induction false} RoutesKeys<H>(routes: seq<(string, H)>)
    ensures forall p :: p in Routes(routes) <==> exists j :: 0 <= j < |routes| && routes[j].0 == p
  {
    if routes != [] {
      var init := routes[..|routes| - 1];
      RoutesKeys(init);
      forall p ensures p in Routes(routes) <==> exists j :: 0 <= j < |routes| && routes[j].0 == p {
        if j :| 0 <= j < |init| && init[j].0 == p { assert routes[j].0 == p; }
        if j :| 0 <= j < |routes| && routes[j].0 == p { if j < |init| { assert init[j].0 == p; } }
      }
    }
  }

  lemma {:induction false} RoutesValues<H>(routes: seq<(string, H)>)
    requires forall i, j :: 0 <= i < j < |routes| ==> routes[i].0 != routes[j].0
    ensures forall j :: 0 <= j < |routes| ==>
              routes[j].0 in Routes(routes) && Routes(routes)[routes[j].0] == routes[j].1
    ensures forall p :: p in Routes(routes) ==> exists j :: 0 <= j < |routes| && routes[j].0 == p
  {
    if routes != [] {
      RoutesValues(routes[..|routes| - 1]);
    }
  }

  lemma NoRoutesYet<H>()
    ensures Routes<H>([]) == map[]
  {
  }

  lemma RoutesNext<H>(routes: seq<(string, H)>, k: nat)
    requires k < |routes| && forall i, j :: 0 <= i < j < |routes| ==> routes[i].0 != routes[j].0
    ensures Routes(routes[..k + 1]) == Routes(routes[..k])[routes[k].0 := routes[k].1]
    ensures routes[k].0 !in Routes(routes[..k])
  {
    assert routes[..k + 1][..k] == routes[..k];
    RoutesKeys(routes[..k]);
  }

  /** After adding routes for distinct paths, every path is answered with the handle it was registered with, any
      other path with none, and the root counts all routes. */
  method Serve<H>(routes: seq<(string, H)>, path: string) returns (r: Option<H>, priority: nat)
    requires forall j :: 0 <= j < |routes| ==> routes[j].0 != "" && Plain(routes[j].0)
    requires forall i, j :: 0 <= i < j < |routes| ==> routes[i].0 != routes[j].0
    ensures r == Lookup(Routes(routes), path)
    ensures forall j :: 0 <= j < |routes| && routes[j].0 == path ==> r == Some(routes[j].1)
    ensures (forall j :: 0 <= j < |routes| ==> routes[j].0 != path) ==> r == None
    ensures priority == |routes|
  {
    hide Shape, Counted, Routes;
    RoutesValues(routes);
    NoRoutesYet<H>();
    var t := new Tree<H>();
    assert routes[..0] == [];
    for k := 0 to |routes|
      invariant t.Valid() && fresh(t) && fresh(t.s.info.Keys) && t.content == Routes(routes[..k]) &&
                  Counted(t.s, t.content, None)
    {
      RoutesNext(routes, k);
      var added := t.AddRoute(routes[k].0, routes[k].1);
    }
    assert routes[..|routes|] == routes;
    r := t.GetValue(path);
    RootIsThere(t.s, t.content);
    priority := t.root.priority;
    RootCounts(t.s, t.content);
    RoutesCount(routes);
  }

  lemma {:induction false} RoutesCount<H>(routes: seq<(string, H)>)
    requires forall i, j :: 0 <= i < j < |routes| ==> routes[i].0 != routes[j].0
    ensures |Routes(routes)| == |routes|
  {
    if routes != [] {
      var init := routes[..|routes| - 1];
      RoutesCount(init);
      RoutesKeys(init);
    }
  }

  /** The root counts the route of a panic as well. */
  lemma RootOvercounts<H>(s: State<H>, content: map<string, H>, path: string)
    requires Shape(s, content) && Counted(s, content, Some(path)) && path in content && s.root in s.info
    ensures !Counted(s, content, None) && s.info[s.root].priority == |content| + 1
  {
    hide Linked, Covered, Ordered;
    RootCurrent(s);
    assert forall k :: k in content ==> Text(s, s.root) <= k;
    assert (set k | k in content && Text(s, s.root) <= k) == content.Keys;
  }

  /** Every route lies below the root. */
  lemma RootCounts<H>(s: State<H>, content: map<string, H>)
    requires Shape(s, content) && Counted(s, content, None) && s.root in s.info
    ensures s.info[s.root].priority == |content|
  {
    hide Linked, Covered, Ordered;
    RootCurrent(s);
    assert forall k :: k in content ==> Text(s, s.root) <= k;
    assert (set k | k in content && Text(s, s.root) <= k) == content.Keys;
  }
}
