/** Paths into a tree as sequences of steps. The linked trees of the model keep a ghost map
    from such paths to their nodes; the paths of a tree are closed under taking prefixes,
    and the size of the set of paths below a node bounds the recursion over its subtree. */
module PrefixMaps {

  /** Every path of `dom` that is one step longer than another has that other in `dom`
      too: the paths of a tree, read from its root. */
  ghost predicate PrefixClosed<T(!new)>(dom: set<seq<T>>) {
    forall q, c | q + [c] in dom :: q in dom
  }

  lemma {:induction false} PrefixOfMember<T(!new)>(dom: set<seq<T>>, q: seq<T>, j: nat)
    requires PrefixClosed(dom) && q in dom && j <= |q|
    ensures q[..j] in dom
    decreases |q| - j
  {
    if j < |q| {
      PrefixOfMember(dom, q, j + 1);
      assert q[..j + 1] == q[..j] + [q[j]];
    } else {
      assert q[..j] == q;
    }
  }

  /** A prefix-closed set holds every prefix of its members. */
  lemma PrefixInDom<T(!new)>(dom: set<seq<T>>, p: seq<T>, k: seq<T>)
    requires PrefixClosed(dom) && k in dom && p <= k
    ensures p in dom
  {
    PrefixOfMember(dom, k, |p|);
    assert k[..|p|] == p;
  }

  /** A path of a prefix-closed set passes through the child of each of its proper
      prefixes that it continues with. */
  lemma ChildOnPath<T(!new)>(dom: set<seq<T>>, p: seq<T>, k: seq<T>)
    requires PrefixClosed(dom) && k in dom && p < k
    ensures p + [k[|p|]] in dom
  {
    PrefixOfMember(dom, k, |p| + 1);
    assert k[..|p| + 1] == p + [k[|p|]];
  }

  /** The paths of `dom` that strictly extend `p`. */
  function Below<T(==)>(dom: set<seq<T>>, p: seq<T>): set<seq<T>> {
    set q | q in dom && p < q
  }

  /** The paths below a path of `dom` are fewer than those below any of its proper
      prefixes: the path itself is below the prefix but not below itself. */
  lemma BelowNarrows<T>(dom: set<seq<T>>, p: seq<T>, q: seq<T>)
    requires p < q && q in dom
    ensures |Below(dom, q)| < |Below(dom, p)|
  {
    var small := Below(dom, q);
    var big := Below(dom, p);
    forall r | r in small
      ensures r in big
    {
      assert r[..|p|] == q[..|p|] == p;
    }
    var rest := big - small;
    assert q in rest;
    assert big == small + rest && small * rest == {};
    assert |rest| > 0;
  }

  /** A one-step extension that is in `dom` has fewer paths of `dom` below it. */
  lemma BelowStep<T>(dom: set<seq<T>>, p: seq<T>, c: T)
    ensures p + [c] in dom ==> |Below(dom, p + [c])| < |Below(dom, p)|
  {
    if p + [c] in dom {
      BelowNarrows(dom, p, p + [c]);
    }
  }

  /** The name of the node at path `q`, read from the node with `name`; a path outside
      `ns` names no node and reads as the empty name. */
  function NameAt<P(==), N>(name: N -> string, ns: map<P, N>, q: P): string {
    if q in ns then name(ns[q]) else []
  }

  /** The names of the nodes at `ps`, in order: what a walk visiting those nodes prints. */
  function Names<P(==), N>(name: N -> string, ns: map<P, N>, ps: seq<P>): (ls: seq<string>)
    ensures |ls| == |ps| && forall k | 0 <= k < |ps| :: ls[k] == NameAt(name, ns, ps[k])
  {
    seq(|ps|, k requires 0 <= k < |ps| => NameAt(name, ns, ps[k]))
  }

  lemma NamesAppend<P, N>(name: N -> string, ns: map<P, N>, a: seq<P>, b: seq<P>)
    ensures Names(name, ns, a + b) == Names(name, ns, a) + Names(name, ns, b)
  {
  }
}
