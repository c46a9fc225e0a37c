/** The directory tree of the file-system demo, stored first-child/next-sibling: each node
    holds a name of fewer than 50 characters, a link to its first child and a link to its
    next sibling.

    A tree is described by a ghost map from the path of each node, the sequence of links
    (`Down` to the first child, `Next` to the next sibling) that leads to it from the root,
    to the node. The paths that extend the path of a node are those of the node, its
    descendants, its later siblings and their descendants. */
module FileSystemTree {
  import opened PrefixMaps

  /** Size of the name buffer, including the terminating NUL. */
  const NAME_SIZE: nat := 50

  /** A link out of a node: to its first child, or to its next sibling. */
  datatype Step = Down | Next

  type Path = seq<Step>

  class Node {
    const name: string
    var child: Node?
    var sibling: Node?

    /** `createNode`: the name is copied, and the node has no child and no sibling. */
    constructor(name: string)
      requires |name| < NAME_SIZE
      ensures this.name == name && child == null && sibling == null
    {
      this.name := name;
      child := null;
      sibling := null;
    }
  }

  ghost function Nodes(ns: map<Path, Node>): set<Node> {
    set p | p in ns :: ns[p]
  }

  /** The link of `n` that step `s` follows. */
  ghost function Link(n: Node, s: Step): Node?
    reads n
  {
    if s == Down then n.child else n.sibling
  }

  /** The link of the node at `p` for step `s` leads to the node at `p + [s]` if that path
      is in `ns`, and is null otherwise. */
  ghost predicate Linked(ns: map<Path, Node>, p: Path, s: Step)
    reads Nodes(ns)
  {
    p in ns
    && if p + [s] in ns then Link(ns[p], s) == ns[p + [s]] else Link(ns[p], s) == null
  }

  /** `ns` maps each path of a tree to its node: the root is at the empty path, the paths
      are prefix-closed, every name fits its buffer, and every link of every node leads
      where the paths say. This is all a walk over the tree relies on. */
  ghost predicate Tree(ns: map<Path, Node>)
    reads Nodes(ns)
  {
    [] in ns && PrefixClosed(ns.Keys)
    && (forall p | p in ns :: |ns[p].name| < NAME_SIZE)
    && forall p, s | p in ns :: Linked(ns, p, s)
  }

  /** Different paths have different nodes. */
  ghost predicate Distinct(ns: map<Path, Node>) {
    forall p, q {:trigger ns[p], ns[q]} | p in ns && q in ns && p != q :: ns[p] != ns[q]
  }

  /** A tree with no node reached by two paths: what an update relies on. */
  ghost predicate Valid(ns: map<Path, Node>)
    reads Nodes(ns)
  {
    Tree(ns) && Distinct(ns)
  }

  /** Some node at or after `p` (the node, its descendants, its later siblings and their
      descendants) is named `target`. */
  ghost predicate Named(ns: map<Path, Node>, p: Path, target: string) {
    exists q | q in ns && p <= q :: ns[q].name == target
  }

  /** The nodes at or after `p` are the node itself and those at or after its two
      links. */
  lemma NamedSplit(ns: map<Path, Node>, p: Path, target: string)
    requires PrefixClosed(ns.Keys) && p in ns
    ensures Named(ns, p, target)
        <==> ns[p].name == target || Named(ns, p + [Down], target) || Named(ns, p + [Next], target)
  {
    if Named(ns, p, target) && ns[p].name != target {
      var q :| q in ns && p <= q && ns[q].name == target;
      assert q != p && |q| > |p|;
      var c := p + [q[|p|]];
      assert c <= q by {
        assert q[..|p| + 1] == c;
      }
      if q[|p|] == Down {
        assert Named(ns, p + [Down], target);
      } else {
        assert Named(ns, p + [Next], target);
      }
    }
  }

  /** Nothing lies at or after a path that is not in the tree. */
  lemma NamedAbsent(ns: map<Path, Node>, p: Path, target: string)
    requires PrefixClosed(ns.Keys) && p !in ns
    ensures !Named(ns, p, target)
  {
    if Named(ns, p, target) {
      var q :| q in ns && p <= q && ns[q].name == target;
      PrefixInDom(ns.Keys, p, q);
    }
  }

  /** Following a link from the node at `p` either leads to a node with fewer paths after
      it, or to nothing at all. */
  lemma Follow(ns: map<Path, Node>, p: Path, s: Step, target: string)
    requires PrefixClosed(ns.Keys)
    ensures p + [s] in ns ==> |Below(ns.Keys, p + [s])| < |Below(ns.Keys, p)|
    ensures p + [s] !in ns ==> !Named(ns, p + [s], target)
  {
    BelowStep(ns.Keys, p, s);
    if p + [s] !in ns {
      NamedAbsent(ns, p + [s], target);
    }
  }

  /** `searchFileSystem`: 0 for no node; 1 if the node is named `target`; otherwise 1 if
      the search from its first child finds it, else the answer of the search from its
      next sibling. So the answer is 1 exactly when `target` names the node, one of its
      descendants, one of its later siblings or one of theirs. */
  function SearchFileSystem(root: Node?, target: string, ghost ns: map<Path, Node>,
                            ghost p: Path): (r: int)
    reads Nodes(ns)
    requires root != null ==> Tree(ns) && p in ns && ns[p] == root
    ensures r == 0 || r == 1
    ensures root == null ==> r == 0
    ensures root != null ==> (r == 1 <==> Named(ns, p, target))
    decreases if root == null then 0 else |Below(ns.Keys, p)| + 1
  {
    if root == null then 0
    else if root.name == target then
      assert p <= p;
      1
    else
      assert Linked(ns, p, Down) && Linked(ns, p, Next);
      NamedSplit(ns, p, target);
      Follow(ns, p, Down, target);
      Follow(ns, p, Next, target);
      if SearchFileSystem(root.child, target, ns, p + [Down]) == 1 then 1
      else SearchFileSystem(root.sibling, target, ns, p + [Next])
  }

  /** The name a node carries, for listing the names of a walk (`Names`); the walks below
      only ever list paths of the tree (`WalkMembers`). */
  const NameOf: Node -> string := (n: Node) => n.name

  /** The paths at or after `q` in depth-first order: the node, then those after its first
      child (its descendants), then those after its next sibling. */
  ghost function Walk(ns: map<Path, Node>, q: Path): seq<Path>
    decreases if q in ns then |Below(ns.Keys, q)| + 1 else 0
  {
    if q !in ns then []
    else
      BelowStep(ns.Keys, q, Down);
      BelowStep(ns.Keys, q, Next);
      [q] + Walk(ns, q + [Down]) + Walk(ns, q + [Next])
  }

  /** What `displayFileSystem` lists from the node at `p`: the node, then the walk from
      its first child, which covers its children and their descendants but not the
      node's own siblings. */
  ghost function Display(ns: map<Path, Node>, p: Path): seq<Path> {
    [p] + Walk(ns, p + [Down])
  }

  /** The walk from `q` lists each path at or after `q`, and only those. */
  lemma {:induction false} WalkMembers(ns: map<Path, Node>, q: Path, r: Path)
    requires PrefixClosed(ns.Keys)
    ensures r in Walk(ns, q) <==> r in ns && q <= r
    decreases if q in ns then |Below(ns.Keys, q)| + 1 else 0
  {
    if q !in ns {
      if r in ns && q <= r {
        PrefixInDom(ns.Keys, q, r);
      }
    } else {
      BelowStep(ns.Keys, q, Down);
      BelowStep(ns.Keys, q, Next);
      WalkMembers(ns, q + [Down], r);
      WalkMembers(ns, q + [Next], r);
      assert r in Walk(ns, q) <==>
        r == q || r in Walk(ns, q + [Down]) || r in Walk(ns, q + [Next]);
      if q < r {
        assert q + [r[|q|]] <= r by {
          assert r[..|q| + 1] == q + [r[|q|]];
        }
        if r[|q|] == Down {
          assert q + [Down] <= r;
        } else {
          assert q + [Next] <= r;
        }
      }
    }
  }

  /** `displayFileSystem` lists the node and its descendants, and nothing else. */
  lemma DisplayMembers(ns: map<Path, Node>, p: Path, r: Path)
    requires PrefixClosed(ns.Keys) && p in ns
    ensures r in Display(ns, p) <==> r == p || (r in ns && p + [Down] <= r)
  {
    WalkMembers(ns, p + [Down], r);
  }

  /** A search answers 1 exactly when the name is among those of the walk from the node:
      the node, its descendants, its later siblings and theirs. */
  lemma SearchWalks(root: Node, target: string, ns: map<Path, Node>, p: Path)
    requires Tree(ns) && p in ns && ns[p] == root
    ensures SearchFileSystem(root, target, ns, p) == 1 <==> target in Names(NameOf, ns, Walk(ns, p))
  {
    var ws := Walk(ns, p);
    if Named(ns, p, target) {
      var q :| q in ns && p <= q && ns[q].name == target;
      WalkMembers(ns, p, q);
      var k :| 0 <= k < |ws| && ws[k] == q;
      assert Names(NameOf, ns, ws)[k] == target;
    } else if target in Names(NameOf, ns, ws) {
      var k :| 0 <= k < |ws| && Names(NameOf, ns, ws)[k] == target;
      WalkMembers(ns, p, ws[k]);
      assert false;
    }
  }

  /** `displayFileSystem`: the node's name, then, following the sibling links from its
      first child, the display of each child in turn; the names of the node and its
      descendants in depth-first order. */
  method DisplayFileSystem(root: Node?, ghost ns: map<Path, Node>, ghost p: Path)
    returns (out: seq<string>)
    requires root != null ==> Tree(ns) && p in ns && ns[p] == root
    ensures root == null ==> out == []
    ensures root != null ==> out == Names(NameOf, ns, Display(ns, p))
    decreases if root == null then 0 else |Below(ns.Keys, p)| + 1
  {
    if root == null {
      return [];
    }
    out := [root.name];
    var temp := root.child;
    ghost var tp := p + [Down];
    assert Linked(ns, p, Down);
    while temp != null
      invariant p < tp
      invariant if tp in ns then temp == ns[tp] else temp == null
      invariant out + Names(NameOf, ns, Walk(ns, tp)) == Names(NameOf, ns, Display(ns, p))
      decreases if tp in ns then |Below(ns.Keys, tp)| + 1 else 0
    {
      assert unchanged(Nodes(ns));
      BelowNarrows(ns.Keys, p, tp);
      var sub := DisplayFileSystem(temp, ns, tp);
      assert unchanged(Nodes(ns));
      WalkStep(ns, tp);
      assert Linked(ns, tp, Next);
      out := out + sub;
      temp := temp.sibling;
      tp := tp + [Next];
    }
  }

  /** The walk from a node is its display followed by the walk from its next sibling. */
  lemma WalkStep(ns: map<Path, Node>, q: Path)
    requires q in ns
    ensures Names(NameOf, ns, Walk(ns, q)) == Names(NameOf, ns, Display(ns, q)) + Names(NameOf, ns, Walk(ns, q + [Next]))
    ensures |Below(ns.Keys, q + [Next])| < |Below(ns.Keys, q)| || q + [Next] !in ns
  {
    BelowStep(ns.Keys, q, Next);
    NamesAppend(NameOf, ns, Display(ns, q), Walk(ns, q + [Next]));
  }

  /** The first path on the sibling chain from `q` that is not in the tree: where a node
      appended after the last sibling goes. */
  ghost function ChainEnd(ns: map<Path, Node>, q: Path): (e: Path)
    ensures e !in ns && q <= e
    ensures e == q <==> q !in ns
    decreases if q in ns then |Below(ns.Keys, q)| + 1 else 0
  {
    if q !in ns then q
    else
      BelowStep(ns.Keys, q, Next);
      var e := ChainEnd(ns, q + [Next]);
      assert q < q + [Next] <= e;
      e
  }

  /** The paths on the sibling chain from `q`, in order: for `q` the first child of a
      node, that node's children. */
  ghost function Chain(ns: map<Path, Node>, q: Path): seq<Path>
    decreases if q in ns then |Below(ns.Keys, q)| + 1 else 0
  {
    if q !in ns then []
    else
      BelowStep(ns.Keys, q, Next);
      [q] + Chain(ns, q + [Next])
  }

  /** Grafting `ms` at `a` puts the sibling chain of `ms` from `r`, moved below `a`,
      where the chain from `a + r` was. */
  lemma {:induction false} ShiftChain(ns: map<Path, Node>, a: Path, ms: map<Path, Node>, r: Path)
    requires forall q | q in ns :: !(a <= q)
    ensures Chain(ns + Shift(a, ms), a + r) == ShiftAll(a, Chain(ms, r))
    decreases if r in ms then |Below(ms.Keys, r)| + 1 else 0
  {
    var ns' := ns + Shift(a, ms);
    assert a <= a + r;
    if r in ms {
      BelowStep(ms.Keys, r, Next);
      ShiftChain(ns, a, ms, r + [Next]);
      assert a + r + [Next] == a + (r + [Next]);
    }
  }

  /** The chain from `q`, which ends at the free path `a`, continues after the graft with
      the chain of the grafted tree. */
  lemma {:induction false} GraftChain(ns: map<Path, Node>, a: Path, ms: map<Path, Node>, q: Path)
    requires forall r | r in ns :: !(a <= r)
    requires ChainEnd(ns, q) == a
    ensures Chain(ns + Shift(a, ms), q) == Chain(ns, q) + ShiftAll(a, Chain(ms, []))
    decreases if q in ns then |Below(ns.Keys, q)| + 1 else 0
  {
    if q in ns {
      BelowStep(ns.Keys, q, Next);
      GraftChain(ns, a, ms, q + [Next]);
    } else {
      assert a + [] == q;
      ShiftChain(ns, a, ms, []);
    }
  }

  /** After `addChild`, the parent's children are its old children in their old order,
      followed by the added node and the siblings that already followed it. */
  lemma ChildrenAfterAdd(ns: map<Path, Node>, p: Path, ms: map<Path, Node>)
    requires PrefixClosed(ns.Keys)
    ensures Chain(ns + Shift(ChainEnd(ns, p + [Down]), ms), p + [Down])
         == Chain(ns, p + [Down]) + ShiftAll(ChainEnd(ns, p + [Down]), Chain(ms, []))
  {
    GraftOutside(ns, ChainEnd(ns, p + [Down]));
    GraftChain(ns, ChainEnd(ns, p + [Down]), ms, p + [Down]);
  }

  /** The tree `ms` moved to hang at path `a`: its path `q` becomes `a + q`. */
  ghost function Shift(a: Path, ms: map<Path, Node>): (m: map<Path, Node>)
    ensures forall q | q in ms :: a + q in m && m[a + q] == ms[q]
    ensures forall r | r in m :: a <= r && r[|a|..] in ms && r == a + r[|a|..]
  {
    assert forall q :: (a + q)[|a|..] == q;
    map r | r in (set q | q in ms :: a + q) :: ms[r[|a|..]]
  }

  /** Each path of `ps` with `a` put in front. */
  function ShiftAll(a: Path, ps: seq<Path>): (rs: seq<Path>)
    ensures |rs| == |ps| && forall k | 0 <= k < |ps| :: rs[k] == a + ps[k]
  {
    seq(|ps|, k requires 0 <= k < |ps| => a + ps[k])
  }

  /** The loop of `addChild` that follows the sibling links from a first child to the
      last one. */
  method LastSibling(first: Node, ghost ns: map<Path, Node>, ghost q: Path)
    returns (last: Node, ghost lq: Path)
    requires Tree(ns) && q in ns && ns[q] == first
    ensures lq in ns && ns[lq] == last && last.sibling == null
    ensures lq + [Next] == ChainEnd(ns, q)
  {
    last := first;
    lq := q;
    while last.sibling != null
      invariant lq in ns && last == ns[lq] && ChainEnd(ns, lq) == ChainEnd(ns, q)
      invariant unchanged(Nodes(ns)) && Linked(ns, lq, Next)
      decreases |Below(ns.Keys, lq)|
    {
      BelowStep(ns.Keys, lq, Next);
      last := last.sibling;
      lq := lq + [Next];
    }
  }

  /** `addChild`: a parent with no child gets `child` as its first child; otherwise the
      sibling links are followed from its first child to the last one, which gets `child`
      as its next sibling. The tree `ms` that hangs from `child` (its descendants, and
      its own later siblings if it has any) hangs from the tree after the parent's other
      children. One link of one node changes; the other links of the tree and all the
      links of `ms` stay as they were. */
  method AddChild(parent: Node, child: Node?, ghost ns: map<Path, Node>, ghost p: Path,
                  ghost ms: map<Path, Node>)
    returns (ghost ns': map<Path, Node>)
    requires Valid(ns) && p in ns && ns[p] == parent
    requires child == null ==> ms == map[]
    requires child != null ==> Valid(ms) && ms[[]] == child
    requires Nodes(ns) !! Nodes(ms)
    modifies Nodes(ns)
    ensures ns' == ns + Shift(ChainEnd(ns, p + [Down]), ms)
    ensures Valid(ns')
    ensures forall q, t | q in ns ::
      Link(ns[q], t) == if q + [t] == ChainEnd(ns, p + [Down]) then child else old(Link(ns[q], t))
    ensures unchanged(Nodes(ms))
    ensures Chain(ns', p + [Down])
         == Chain(ns, p + [Down]) + ShiftAll(ChainEnd(ns, p + [Down]), Chain(ms, []))
  {
    ghost var a := ChainEnd(ns, p + [Down]);
    assert Linked(ns, p, Down);
    ghost var e := p;
    if parent.child == null {
      parent.child := child;
    } else {
      var temp, tp := LastSibling(parent.child, ns, p + [Down]);
      temp.sibling := child;
      e := tp;
    }
    assert unchanged(Nodes(ms));
    assert a == e + [a[|a| - 1]] && e == a[..|a| - 1];
    forall q, t | q in ns
      ensures Link(ns[q], t) == if q + [t] == a then child else old(Link(ns[q], t))
    {
      if q != e {
        assert ns[q] != ns[e];
      } else if q + [t] != a {
        assert t != a[|a| - 1];
      }
    }
    forall q, t | q in ns && q + [t] != a
      ensures Linked(ns, q, t)
    {
      assert old(Linked(ns, q, t));
    }
    Graft(ns, a, ms, child);
    ns' := ns + Shift(a, ms);
    ChildrenAfterAdd(ns, p, ms);
  }

  /** Hanging the tree `ms` at the free path `a` just after a node of a tree, whose link
      for that step now leads to its root, gives a tree with the paths of both. */
  lemma Graft(ns: map<Path, Node>, a: Path, ms: map<Path, Node>, child: Node?)
    requires [] in ns && PrefixClosed(ns.Keys) && Distinct(ns)
    requires forall q | q in ns :: |ns[q].name| < NAME_SIZE
    requires |a| > 0 && a[..|a| - 1] in ns && a !in ns
    requires forall q, t | q in ns && q + [t] != a :: Linked(ns, q, t)
    requires Link(ns[a[..|a| - 1]], a[|a| - 1]) == child
    requires child == null ==> ms == map[]
    requires child != null ==> Valid(ms) && ms[[]] == child
    requires Nodes(ns) !! Nodes(ms)
    ensures Valid(ns + Shift(a, ms))
  {
    GraftOutside(ns, a);
    GraftClosed(ns, a, ms);
    GraftDistinct(ns, a, ms);
    var ns' := ns + Shift(a, ms);
    forall r, t | r in ns'
      ensures Linked(ns', r, t)
    {
      if r in ns {
        GraftLinkedOld(ns, a, ms, child, r, t);
      } else {
        GraftLinkedNew(ns, a, ms, r, t);
      }
    }
  }

  /** No path of a tree extends a path outside it. */
  lemma GraftOutside(ns: map<Path, Node>, a: Path)
    requires PrefixClosed(ns.Keys) && a !in ns
    ensures forall r | r in ns :: !(a <= r)
  {
    forall r | r in ns && a <= r
      ensures false
    {
      PrefixInDom(ns.Keys, a, r);
    }
  }

  lemma GraftClosed(ns: map<Path, Node>, a: Path, ms: map<Path, Node>)
    requires [] in ns && PrefixClosed(ns.Keys)
    requires |a| > 0 && a[..|a| - 1] in ns
    requires ms == map[] || PrefixClosed(ms.Keys)
    ensures [] in ns + Shift(a, ms) && PrefixClosed((ns + Shift(a, ms)).Keys)
  {
    var ns' := ns + Shift(a, ms);
    var e := a[..|a| - 1];
    forall r, c | r + [c] in ns'
      ensures r in ns'
    {
      if r + [c] !in ns {
        if |r + [c]| == |a| {
          assert r == (r + [c])[..|r|] == a[..|r|] == e;
        } else {
          assert a <= r;
          assert (r + [c])[|a|..] == r[|a|..] + [c];
          assert r == a + r[|a|..];
        }
      }
    }
  }

  lemma GraftDistinct(ns: map<Path, Node>, a: Path, ms: map<Path, Node>)
    requires Distinct(ns) && Distinct(ms) && Nodes(ns) !! Nodes(ms)
    requires forall r | r in ns :: !(a <= r)
    ensures Distinct(ns + Shift(a, ms))
  {
    var sh := Shift(a, ms);
    var ns' := ns + sh;
    forall r1, r2 | r1 in ns' && r2 in ns' && r1 != r2
      ensures ns'[r1] != ns'[r2]
    {
      if r1 in ns && r2 in ns {
      } else if r1 in sh && r2 in sh {
        assert r1[|a|..] != r2[|a|..];
      } else if r1 in ns {
        assert ns'[r2] == ms[r2[|a|..]] && ms[r2[|a|..]] in Nodes(ms);
      } else {
        assert ns'[r1] == ms[r1[|a|..]] && ms[r1[|a|..]] in Nodes(ms);
      }
    }
  }

  /** The links of the old nodes lead where the paths of the grafted tree say. */
  lemma GraftLinkedOld(ns: map<Path, Node>, a: Path, ms: map<Path, Node>, child: Node?,
                       r: Path, t: Step)
    requires |a| > 0 && a[..|a| - 1] in ns && a !in ns
    requires forall r | r in ns :: !(a <= r)
    requires forall q, t | q in ns && q + [t] != a :: Linked(ns, q, t)
    requires Link(ns[a[..|a| - 1]], a[|a| - 1]) == child
    requires child == null ==> ms == map[]
    requires child != null ==> [] in ms && ms[[]] == child
    requires r in ns
    ensures Linked(ns + Shift(a, ms), r, t)
  {
    var sh := Shift(a, ms);
    var e := a[..|a| - 1];
    assert a == e + [a[|a| - 1]];
    if r + [t] == a {
      if child != null {
        assert a + [] == a;
      }
    } else {
      assert Linked(ns, r, t);
    }
  }

  /** The links of the grafted nodes lead where the paths of the grafted tree say. */
  lemma GraftLinkedNew(ns: map<Path, Node>, a: Path, ms: map<Path, Node>, r: Path, t: Step)
    requires forall r | r in ns :: !(a <= r)
    requires forall q, t | q in ms :: Linked(ms, q, t)
    requires r in Shift(a, ms)
    ensures Linked(ns + Shift(a, ms), r, t)
  {
    var sh := Shift(a, ms);
    var q := r[|a|..];
    assert r == a + q && q in ms;
    assert Linked(ms, q, t);
    assert r + [t] == a + (q + [t]);
    if r + [t] in sh {
      assert (r + [t])[|a|..] == q + [t];
    }
  }
}
