/** The bounded n-ary tree: each node holds a name of fewer than 50 characters, an array of
    ten child slots and the number of slots in use; children are only ever appended.

    A tree is described by a ghost map from the path of each node, the sequence of child
    indices that leads to it from the root, to the node. The recursive walks of the source
    (`search`, `traverse`) are specified by the preorder sequence of paths of a subtree. */
module NaryTree {
  import opened PrefixMaps
  import opened Optional

  /** Number of child slots of a node. */
  const MAX_CHILDREN: nat := 10
  /** Size of the name buffer, including the terminating NUL. */
  const DATA_SIZE: nat := 50

  type Path = seq<int>

  class Node {
    const data: string
    const child: array<Node?>
    var childCount: int

    /** `createNode`: the name is copied, no child is in use, and all ten slots are
        empty. */
    constructor(data: string)
      requires |data| < DATA_SIZE
      ensures this.data == data && childCount == 0
      ensures child.Length == MAX_CHILDREN && fresh(child)
      ensures forall i :: 0 <= i < MAX_CHILDREN ==> child[i] == null
    {
      this.data := data;
      child := new Node?[MAX_CHILDREN](_ => null);
      childCount := 0;
    }
  }

  ghost function Nodes(ns: map<Path, Node>): set<Node> {
    set p | p in ns :: ns[p]
  }

  ghost function Arrays(ns: map<Path, Node>): set<array<Node?>> {
    set p | p in ns :: ns[p].child
  }

  /** The paths of `ns` include the empty one and are prefix-closed; every node has ten
      slots, between 0 and 10 of them in use, and a name that fits its buffer; and the
      children of the node at `p` are exactly the paths `p + [i]` for the slots `i` in
      use. */
  ghost predicate Shaped(ns: map<Path, Node>)
    reads Nodes(ns)
  {
    [] in ns && PrefixClosed(ns.Keys)
    && (forall p | p in ns ::
          ns[p].child.Length == MAX_CHILDREN && 0 <= ns[p].childCount <= MAX_CHILDREN
          && |ns[p].data| < DATA_SIZE)
    && (forall p, i {:trigger p + [i]} | p in ns :: p + [i] in ns <==> 0 <= i < ns[p].childCount)
  }

  /** Slot `i` of the node at `p` holds the node at `p + [i]`. */
  ghost predicate Linked(ns: map<Path, Node>, p: Path, i: int)
    reads Arrays(ns)
  {
    p in ns && p + [i] in ns && 0 <= i < ns[p].child.Length
    && ns[p].child[i] == ns[p + [i]]
  }

  /** Different paths have different nodes and different slot arrays. */
  ghost predicate Distinct(ns: map<Path, Node>) {
    forall p, q | p in ns && q in ns && p != q ::
      ns[p] != ns[q] && ns[p].child != ns[q].child
  }

  /** `ns` maps each path of a tree to its node: the slots in use of each node hold the
      nodes of its children. This is all a walk over the tree relies on. */
  ghost predicate Tree(ns: map<Path, Node>)
    reads Nodes(ns), Arrays(ns)
  {
    Shaped(ns) && forall p, i | p + [i] in ns && p in ns :: Linked(ns, p, i)
  }

  /** A tree whose nodes and slot arrays are not shared: what an update relies on. */
  ghost predicate Valid(ns: map<Path, Node>)
    reads Nodes(ns), Arrays(ns)
  {
    Tree(ns) && Distinct(ns)
  }

  /** The paths of the subtree at `p` in preorder: `p` itself, then the subtrees of its
      children in slot order. */
  ghost function Preorder(ns: map<Path, Node>, p: Path): (ps: seq<Path>)
    reads Nodes(ns)
    requires Shaped(ns) && p in ns
    decreases |Below(ns.Keys, p)|, MAX_CHILDREN + 1
  {
    [p] + PreorderKids(ns, p, ns[p].childCount)
  }

  /** The preorder of the subtrees of the first `n` children of the node at `p`. */
  ghost function PreorderKids(ns: map<Path, Node>, p: Path, n: int): (ps: seq<Path>)
    reads Nodes(ns)
    requires Shaped(ns) && p in ns && 0 <= n <= ns[p].childCount
    decreases |Below(ns.Keys, p)|, n
  {
    if n == 0 then []
    else
      BelowNarrows(ns.Keys, p, p + [n - 1]);
      PreorderKids(ns, p, n - 1) + Preorder(ns, p + [n - 1])
  }

  /** The name a node carries, for listing the names of a walk (`Names`); the walks below
      only ever list paths of the tree (`PreorderMembers`). */
  const DataOf: Node -> string := (n: Node) => n.data

  /** The node at the first of `ps` whose name is `key`, or null if there is none. */
  function Found(ns: map<Path, Node>, ps: seq<Path>, key: string): Node? {
    match FirstIndex(Names(DataOf, ns, ps), key)
    case None => null
    case Some(j) => if ps[j] in ns then ns[ps[j]] else null
  }

  /** The names listed once child `i` is walked: those before it, then those of its
      subtree. */
  lemma NamesStep(ns: map<Path, Node>, p: Path, i: int)
    requires Shaped(ns) && p in ns && 0 <= i < ns[p].childCount
    ensures Names(DataOf, ns, [p] + PreorderKids(ns, p, i + 1))
         == Names(DataOf, ns, [p] + PreorderKids(ns, p, i)) + Names(DataOf, ns, Preorder(ns, p + [i]))
  {
    NamesAppend(DataOf, ns, [p] + PreorderKids(ns, p, i), Preorder(ns, p + [i]));
    assert [p] + PreorderKids(ns, p, i + 1)
        == ([p] + PreorderKids(ns, p, i)) + Preorder(ns, p + [i]);
  }

  /** A first match in `a` is the first match in `a + b`. */
  lemma FoundPrefix(ns: map<Path, Node>, a: seq<Path>, b: seq<Path>, key: string)
    requires key in Names(DataOf, ns, a)
    ensures Found(ns, a + b, key) == Found(ns, a, key)
  {
    var j := FirstIndex(Names(DataOf, ns, a), key).value;
    NamesAppend(DataOf, ns, a, b);
    assert Names(DataOf, ns, a + b)[..j] == Names(DataOf, ns, a)[..j];
    FirstIndexUnique(Names(DataOf, ns, a + b), key, j);
  }

  /** With no match in `a`, the first match in `a + b` is the first match in `b`. */
  lemma FoundSkip(ns: map<Path, Node>, a: seq<Path>, b: seq<Path>, key: string)
    requires key !in Names(DataOf, ns, a)
    ensures Found(ns, a + b, key) == Found(ns, b, key)
  {
    NamesAppend(DataOf, ns, a, b);
    FirstIndexAfter(Names(DataOf, ns, a), Names(DataOf, ns, b), key);
    if key in Names(DataOf, ns, b) {
      var j := FirstIndex(Names(DataOf, ns, b), key).value;
      assert (a + b)[|a| + j] == b[j];
    }
  }

  /** A node fresh from `createNode` is a tree of one node, whose walk visits just it. */
  lemma SingleNode(root: Node)
    requires root.childCount == 0 && root.child.Length == MAX_CHILDREN
    requires |root.data| < DATA_SIZE
    ensures Valid(map[[] := root])
    ensures Preorder(map[[] := root], []) == [[]]
  {
  }

  /** `insertChild`: a node whose ten slots are all in use is left as it is (the source
      only prints a message); otherwise a new node named `data`, with no children, goes
      into the first free slot, the count of slots in use grows by one and the tree gains
      the path of the new child. Nothing else changes. */
  method InsertChild(parent: Node, data: string, ghost ns: map<Path, Node>, ghost p: Path)
    returns (ghost ns': map<Path, Node>)
    requires Valid(ns) && p in ns && ns[p] == parent
    requires parent.childCount < MAX_CHILDREN ==> |data| < DATA_SIZE
    modifies parent, parent.child
    ensures Valid(ns')
    ensures old(parent.childCount) >= MAX_CHILDREN ==>
      ns' == ns && parent.childCount == old(parent.childCount)
      && parent.child[..] == old(parent.child[..])
    ensures old(parent.childCount) < MAX_CHILDREN ==>
      var i := old(parent.childCount);
      parent.childCount == i + 1 && p + [i] !in ns && p + [i] in ns'
      && ns' == ns[p + [i] := ns'[p + [i]]]
      && parent.child[..] == old(parent.child[..])[i := ns'[p + [i]]]
      && fresh(ns'[p + [i]]) && ns'[p + [i]].data == data && ns'[p + [i]].childCount == 0
      && forall j :: 0 <= j < MAX_CHILDREN ==> ns'[p + [i]].child[j] == null
  {
    if parent.childCount >= MAX_CHILDREN {
      return ns;
    }
    var i := parent.childCount;
    var node := new Node(data);
    parent.child[i] := node;
    parent.childCount := i + 1;
    forall q | q in ns && q != p
      ensures ns[q].childCount == old(ns[q].childCount)
    {
      assert ns[q] != parent;
    }
    forall q, j | q + [j] in ns && q in ns
      ensures Linked(ns, q, j)
    {
      assert old(Linked(ns, q, j));
      if q == p {
        assert j < i;
      }
    }
    AddLeaf(ns, p, node);
    ns' := ns[p + [i] := node];
  }

  /** Hanging a node with no children into the newly used slot of the node at `p` extends
      the tree by the path of that slot. */
  lemma AddLeaf(ns: map<Path, Node>, p: Path, node: Node)
    requires [] in ns && PrefixClosed(ns.Keys) && Distinct(ns) && p in ns
    requires forall q | q in ns ::
      ns[q].child.Length == MAX_CHILDREN && 0 <= ns[q].childCount <= MAX_CHILDREN
      && |ns[q].data| < DATA_SIZE
    requires ns[p].childCount > 0
    requires forall q, j | q in ns && q != p :: q + [j] in ns <==> 0 <= j < ns[q].childCount
    requires forall j :: p + [j] in ns <==> 0 <= j < ns[p].childCount - 1
    requires forall q, j | q + [j] in ns && q in ns :: Linked(ns, q, j)
    requires forall q | q in ns :: ns[q] != node && ns[q].child != node.child
    requires node.childCount == 0 && node.child.Length == MAX_CHILDREN
    requires |node.data| < DATA_SIZE
    requires ns[p].child[ns[p].childCount - 1] == node
    ensures Valid(ns[p + [ns[p].childCount - 1] := node])
  {
    var i := ns[p].childCount - 1;
    var c := p + [i];
    var ns' := ns[c := node];
    forall r, j | r + [j] in ns'
      ensures r in ns'
    {
      if r + [j] == c {
        assert r == (r + [j])[..|r|] == c[..|p|] == p;
      }
    }
    forall r, j | r in ns'
      ensures r + [j] in ns' <==> 0 <= j < ns'[r].childCount
    {
      if r == c {
        assert |r + [j]| != |c|;
      } else if r + [j] == c {
        assert |r| == |p| && r == (r + [j])[..|r|];
      }
    }
    forall r, j | r + [j] in ns' && r in ns'
      ensures Linked(ns', r, j)
    {
      if r + [j] == c {
        assert |r| == |p| && r == (r + [j])[..|r|];
        assert (r + [j])[|r|] == c[|p|];
      } else {
        assert Linked(ns, r, j);
      }
    }
  }

  /** The preorder of the subtree at `p` lists each path of that subtree, and only
      those. */
  lemma {:induction false} PreorderMembers(ns: map<Path, Node>, p: Path, q: Path)
    requires Shaped(ns) && p in ns
    ensures q in Preorder(ns, p) <==> q in ns && p <= q
    decreases |Below(ns.Keys, p)|, MAX_CHILDREN + 1
  {
    var n := ns[p].childCount;
    KidsMembers(ns, p, n, q);
    assert q in Preorder(ns, p) <==> q == p || q in PreorderKids(ns, p, n);
    if q in ns && p < q {
      ChildOnPath(ns.Keys, p, q);
      assert 0 <= q[|p|] < n;
    }
  }

  /** The preorder of the first `n` children's subtrees lists exactly the paths below `p`
      that pass through one of those children. */
  lemma {:induction false} KidsMembers(ns: map<Path, Node>, p: Path, n: int, q: Path)
    requires Shaped(ns) && p in ns && 0 <= n <= ns[p].childCount
    ensures q in PreorderKids(ns, p, n) <==> q in ns && p < q && 0 <= q[|p|] < n
    decreases |Below(ns.Keys, p)|, n
  {
    if n == 0 {
      if q in ns && p < q {
        ChildOnPath(ns.Keys, p, q);
      }
    } else {
      BelowNarrows(ns.Keys, p, p + [n - 1]);
      KidsMembers(ns, p, n - 1, q);
      PreorderMembers(ns, p + [n - 1], q);
      if p < q {
        assert p + [n - 1] <= q <==> q[|p|] == n - 1 by {
          if q[|p|] == n - 1 {
            assert q[..|p| + 1] == p + [n - 1];
          }
        }
        if q in ns {
          ChildOnPath(ns.Keys, p, q);
        }
      }
    }
  }

  /** Every path listed by a preorder walk is a path of the tree. */
  lemma PreorderInTree(ns: map<Path, Node>, p: Path)
    requires Shaped(ns) && p in ns
    ensures forall q | q in Preorder(ns, p) :: q in ns && p <= q
  {
    forall q | q in Preorder(ns, p)
      ensures q in ns && p <= q
    {
      PreorderMembers(ns, p, q);
    }
  }

  /** The walk over fewer children is a prefix of the walk over more. */
  lemma {:induction false} KidsPrefix(ns: map<Path, Node>, p: Path, n: int, m: int)
    requires Shaped(ns) && p in ns && 0 <= n <= m <= ns[p].childCount
    ensures PreorderKids(ns, p, n) <= PreorderKids(ns, p, m)
    decreases m - n
  {
    if n < m {
      KidsPrefix(ns, p, n, m - 1);
      BelowNarrows(ns.Keys, p, p + [m - 1]);
      assert PreorderKids(ns, p, m)
          == PreorderKids(ns, p, m - 1) + Preorder(ns, p + [m - 1]);
    }
  }

  /** What `search` answers about the subtree at `p`: nothing exactly when no node of the
      subtree has the name, and otherwise a node with that name. */
  lemma FoundInSubtree(ns: map<Path, Node>, p: Path, key: string)
    requires Shaped(ns) && p in ns
    ensures Found(ns, Preorder(ns, p), key) == null
        <==> forall q | q in ns && p <= q :: ns[q].data != key
    ensures Found(ns, Preorder(ns, p), key) != null ==>
        Found(ns, Preorder(ns, p), key).data == key
  {
    PreorderInTree(ns, p);
    var ps := Preorder(ns, p);
    forall q | q in ns && p <= q
      ensures q in ps
    {
      PreorderMembers(ns, p, q);
    }
    if Found(ns, ps, key) == null {
      forall q | q in ns && p <= q
        ensures ns[q].data != key
      {
        var k :| 0 <= k < |ps| && ps[k] == q;
        assert Names(DataOf, ns, ps)[k] == ns[q].data;
      }
    } else {
      var j := FirstIndex(Names(DataOf, ns, ps), key).value;
      assert Names(DataOf, ns, ps)[j] == key;
    }
  }

  /** A search ends at the node itself when its name matches, and finds nothing when
      neither the node nor any of its children's subtrees has a match. */
  lemma FoundEnds(ns: map<Path, Node>, p: Path, key: string)
    requires Shaped(ns) && p in ns
    ensures ns[p].data == key ==> Found(ns, Preorder(ns, p), key) == ns[p]
    ensures key !in Names(DataOf, ns, [p] + PreorderKids(ns, p, ns[p].childCount)) ==>
        Found(ns, Preorder(ns, p), key) == null
  {
    var ls := Names(DataOf, ns, Preorder(ns, p));
    if ns[p].data == key {
      assert ls[0] == key;
      FirstIndexUnique(ls, key, 0);
    }
  }

  /** Searching child `i` after a fruitless search of the node and its earlier children:
      a match in the child's subtree is the first match of the whole subtree, and no
      match leaves the search fruitless up to and including child `i`. */
  lemma FoundStep(ns: map<Path, Node>, p: Path, i: int, key: string)
    requires Shaped(ns) && p in ns && 0 <= i < ns[p].childCount
    requires key !in Names(DataOf, ns, [p] + PreorderKids(ns, p, i))
    ensures Found(ns, Preorder(ns, p + [i]), key) != null ==>
        Found(ns, Preorder(ns, p), key) == Found(ns, Preorder(ns, p + [i]), key)
    ensures Found(ns, Preorder(ns, p + [i]), key) == null ==>
        key !in Names(DataOf, ns, [p] + PreorderKids(ns, p, i + 1))
  {
    var rest := PreorderSplit(ns, p, i);
    PreorderInTree(ns, p + [i]);
    FoundSplit(ns, [p] + PreorderKids(ns, p, i), Preorder(ns, p + [i]), rest, key);
  }

  /** The preorder of the subtree at `p` runs through the node, its first `i` children's
      subtrees, the subtree of child `i`, and then the rest. */
  lemma PreorderSplit(ns: map<Path, Node>, p: Path, i: int) returns (rest: seq<Path>)
    requires Shaped(ns) && p in ns && 0 <= i < ns[p].childCount
    ensures [p] + PreorderKids(ns, p, i + 1)
         == ([p] + PreorderKids(ns, p, i)) + Preorder(ns, p + [i])
    ensures Preorder(ns, p)
         == ([p] + PreorderKids(ns, p, i)) + (Preorder(ns, p + [i]) + rest)
  {
    var all := Preorder(ns, p);
    var done := [p] + PreorderKids(ns, p, i);
    var sub := Preorder(ns, p + [i]);
    KidsPrefix(ns, p, i + 1, ns[p].childCount);
    assert done + sub == [p] + PreorderKids(ns, p, i + 1) <= all;
    rest := all[|done + sub|..];
  }

  /** A search that found nothing in `done` and goes on with `sub`: a match in `sub` is
      the first match of the whole sequence, and no match leaves nothing found in
      `done + sub`. */
  lemma FoundSplit(ns: map<Path, Node>, done: seq<Path>, sub: seq<Path>, rest: seq<Path>,
                   key: string)
    requires key !in Names(DataOf, ns, done)
    requires forall q | q in sub :: q in ns
    ensures Found(ns, sub, key) != null ==> Found(ns, done + (sub + rest), key) == Found(ns, sub, key)
    ensures Found(ns, sub, key) == null ==> key !in Names(DataOf, ns, done + sub)
  {
    NamesAppend(DataOf, ns, done, sub);
    if key in Names(DataOf, ns, sub) {
      FoundSkip(ns, done, sub + rest, key);
      FoundPrefix(ns, sub, rest, key);
    }
  }

  /** `search`: the node itself if its name is `key`, else the first answer of a search of
      its children in slot order, else null. The answer is the first node in preorder with
      that name; it is null exactly when no node of the subtree has the name. */
  method Search(root: Node?, key: string, ghost ns: map<Path, Node>, ghost p: Path)
    returns (r: Node?)
    requires root != null ==> Tree(ns) && p in ns && ns[p] == root
    ensures root == null ==> r == null
    ensures root != null ==> r == Found(ns, Preorder(ns, p), key)
    ensures root != null ==> (r == null <==> forall q | q in ns && p <= q :: ns[q].data != key)
    ensures r != null ==> r.data == key
    decreases if root == null then 0 else |Below(ns.Keys, p)| + 1
  {
    if root == null {
      return null;
    }
    FoundInSubtree(ns, p, key);
    FoundEnds(ns, p, key);
    if root.data == key {
      return root;
    }
    for i := 0 to root.childCount
      invariant key !in Names(DataOf, ns, [p] + PreorderKids(ns, p, i))
    {
      assert root.child[i] == ns[p + [i]];
      BelowNarrows(ns.Keys, p, p + [i]);
      var found := Search(root.child[i], key, ns, p + [i]);
      assert unchanged(Nodes(ns));
      FoundStep(ns, p, i, key);
      if found != null {
        return found;
      }
    }
    assert unchanged(Nodes(ns));
    return null;
  }

  /** `traverse`: the node's name, then the traversals of its children in slot order,
      which is the names of the subtree in preorder. */
  method Traverse(root: Node?, ghost ns: map<Path, Node>, ghost p: Path)
    returns (out: seq<string>)
    requires root != null ==> Tree(ns) && p in ns && ns[p] == root
    ensures root == null ==> out == []
    ensures root != null ==> out == Names(DataOf, ns, Preorder(ns, p))
    decreases if root == null then 0 else |Below(ns.Keys, p)| + 1
  {
    if root == null {
      return [];
    }
    out := [root.data];
    for i := 0 to root.childCount
      invariant out == Names(DataOf, ns, [p] + PreorderKids(ns, p, i))
    {
      assert root.child[i] == ns[p + [i]];
      BelowNarrows(ns.Keys, p, p + [i]);
      var sub := Traverse(root.child[i], ns, p + [i]);
      assert unchanged(Nodes(ns));
      NamesStep(ns, p, i);
      out := out + sub;
    }
  }
}
