/** The path trie of the file-access system: one node per prefix of an inserted path, 128
    child slots indexed by ASCII code, and an end mark on each node where an inserted path
    ends. The same trie is written out twice in the source, once as a library and once
    inside a stand-alone demo; this module models both.

    A trie rooted at `root` is described by a ghost map from each path of the trie to its
    node; the stored files are the paths whose node carries the end mark. */
module PathTrie {
  import opened PrefixMaps

  /** Number of child slots of a node: one per ASCII code. */
  const CHAR_SIZE: nat := 128

  /** A C string of ASCII characters: no NUL, and every code indexes a child slot. */
  predicate IsPath(s: string) {
    forall i :: 0 <= i < |s| ==> 0 < s[i] as int < CHAR_SIZE
  }

  class TrieNode {
    const children: array<TrieNode?>
    var isEndOfFile: int

    /** `createNode`: no end mark, and all 128 child slots empty. */
    constructor()
      ensures isEndOfFile == 0 && children.Length == CHAR_SIZE && fresh(children)
      ensures forall i :: 0 <= i < CHAR_SIZE ==> children[i] == null
    {
      children := new TrieNode?[CHAR_SIZE](_ => null);
      isEndOfFile := 0;
    }
  }

  /** The prefixes of `s`, from the empty one to `s` itself. */
  function Prefixes(s: string): (ps: set<string>)
    ensures forall q :: q in ps <==> q <= s
  {
    assert forall q | q <= s :: q == s[..|q|];
    set j | 0 <= j <= |s| :: s[..j]
  }

  lemma PrefixesSnoc(s: string, c: char)
    ensures Prefixes(s + [c]) == Prefixes(s) + {s + [c]}
  {
    forall q | q in Prefixes(s + [c])
      ensures q in Prefixes(s) + {s + [c]}
    {
      if q != s + [c] {
        assert q == (s + [c])[..|q|] && |q| <= |s|;
        assert q == s[..|q|];
      }
    }
  }

  /** `p` is the empty path or a prefix of one of `keys`. */
  predicate Leads(keys: set<string>, p: string) {
    p == [] || exists k :: k in keys && p <= k
  }

  /** Every path of `dom` is the empty path or leads to a stored file: a trie that only
      insertions have built has no dead branches. */
  predicate Pruned(dom: set<string>, keys: set<string>) {
    forall p {:trigger Leads(keys, p)} | p in dom :: Leads(keys, p)
  }

  ghost function Nodes(ns: map<string, TrieNode>): set<TrieNode> {
    set p | p in ns :: ns[p]
  }

  ghost function Arrays(ns: map<string, TrieNode>): set<array<TrieNode?>> {
    set p | p in ns :: ns[p].children
  }

  /** The paths of `ns` are prefix-closed ASCII paths including the empty one, and every
      node has 128 slots and an end mark of 0 or 1. */
  ghost predicate Shaped(ns: map<string, TrieNode>)
    reads Nodes(ns)
  {
    [] in ns && PrefixClosed(ns.Keys)
    && forall p | p in ns ::
         IsPath(p) && ns[p].children.Length == CHAR_SIZE
         && (ns[p].isEndOfFile == 0 || ns[p].isEndOfFile == 1)
  }

  /** Slot `i` of the node at `p` holds the node at `p + [i]` if that path is in `ns`, and
      is empty otherwise. */
  ghost predicate Linked(ns: map<string, TrieNode>, p: string, i: int)
    reads Arrays(ns)
  {
    p in ns && 0 <= i < CHAR_SIZE && i < ns[p].children.Length
    && if p + [i as char] in ns then ns[p].children[i] == ns[p + [i as char]]
       else ns[p].children[i] == null
  }

  /** Different paths have different nodes and different slot arrays. */
  ghost predicate Distinct(ns: map<string, TrieNode>) {
    forall p, q | p in ns && q in ns && p != q ::
      ns[p] != ns[q] && ns[p].children != ns[q].children
  }

  /** `ns` maps each path of a well-formed trie to its node: the root is at the empty path,
      slot `i` of the node at `p` holds the node at `p + [i]` exactly when that path is in
      the trie, different paths have different nodes and slot arrays, and end marks are 0
      or 1. */
  ghost predicate Valid(ns: map<string, TrieNode>)
    reads Nodes(ns), Arrays(ns)
  {
    Shaped(ns) && Distinct(ns)
    && forall p, i | p in ns && 0 <= i < CHAR_SIZE :: Linked(ns, p, i)
  }

  /** The stored files: the paths whose node carries the end mark. */
  ghost function Keys(ns: map<string, TrieNode>): set<string>
    reads Nodes(ns)
  {
    set p | p in ns && ns[p].isEndOfFile == 1
  }

  /** A trie rooted at `root` with no dead branches. */
  ghost predicate Trie(root: TrieNode, ns: map<string, TrieNode>)
    reads Nodes(ns), Arrays(ns)
  {
    Valid(ns) && ns[[]] == root && Pruned(ns.Keys, Keys(ns))
  }

  /** A node fresh from `createNode` is the root of an empty trie. */
  lemma EmptyTrie(root: TrieNode)
    requires root.isEndOfFile == 0 && root.children.Length == CHAR_SIZE
    requires forall i :: 0 <= i < CHAR_SIZE ==> root.children[i] == null
    ensures Trie(root, map[[] := root]) && Keys(map[[] := root]) == {}
  {
  }

  /** Inserting `path` keeps the trie free of dead branches. */
  lemma PrunedInsert(dom: set<string>, keys: set<string>, path: string)
    requires Pruned(dom, keys)
    ensures Pruned(dom + Prefixes(path), keys + {path})
  {
    forall p | p in dom + Prefixes(path)
      ensures Leads(keys + {path}, p)
    {
      if p in Prefixes(path) {
        assert path in keys + {path} && p <= path;
      } else if p != [] {
        assert Leads(keys, p);
        var k :| k in keys && p <= k;
        assert k in keys + {path};
      }
    }
  }

  /** In a trie without dead branches, the paths of the trie are exactly the empty path and
      the prefixes of stored files. */
  lemma PathsArePrefixes(ns: map<string, TrieNode>, q: string)
    requires Valid(ns) && Pruned(ns.Keys, Keys(ns))
    ensures q in ns <==> q == [] || exists k :: k in Keys(ns) && q <= k
  {
    if q in ns {
      assert Leads(Keys(ns), q);
    }
    if exists k :: k in Keys(ns) && q <= k {
      var k :| k in Keys(ns) && q <= k;
      PrefixOfMember(ns.Keys, k, |q|);
      assert k[..|q|] == q;
    }
  }

  /** `insertFile`: walk down from the root along `path`, creating each missing node, and
      mark the last one. The stored files gain `path` and nothing else; the trie gains the
      prefixes of `path` and every earlier node keeps its path. */
  method InsertFile(root: TrieNode, path: string, ghost ns: map<string, TrieNode>)
    returns (ghost ns': map<string, TrieNode>)
    requires Trie(root, ns) && IsPath(path)
    modifies Nodes(ns), Arrays(ns)
    ensures Trie(root, ns')
    ensures Keys(ns') == old(Keys(ns)) + {path}
    ensures ns'.Keys == ns.Keys + Prefixes(path)
    ensures forall p | p in ns :: ns'[p] == ns[p]
    ensures forall p | p in ns' && p !in ns :: fresh(ns'[p]) && fresh(ns'[p].children)
  {
    ghost var keys := Keys(ns);
    var curr := root;
    ns' := ns;
    for i := 0 to |path|
      invariant Valid(ns') && ns'[[]] == root
      invariant path[..i] in ns' && ns'[path[..i]] == curr
      invariant ns'.Keys == ns.Keys + Prefixes(path[..i])
      invariant forall p | p in ns :: ns'[p] == ns[p]
      invariant forall p | p in ns' && p !in ns :: fresh(ns'[p]) && fresh(ns'[p].children)
      invariant Keys(ns') == keys
    {
      assert path[..i + 1] == path[..i] + [path[i]];
      PrefixesSnoc(path[..i], path[i]);
      curr, ns' := Descend(curr, path[i], ns', path[..i]);
    }
    assert path[..|path|] == path;
    MarkEnd(curr, ns', path);
    PrunedInsert(ns.Keys, keys, path);
  }

  /** The last step of `insertFile`: the node at `path` gets the end mark, so the stored
      files gain `path` and the trie keeps its shape. */
  method MarkEnd(curr: TrieNode, ghost ns: map<string, TrieNode>, ghost path: string)
    requires Valid(ns) && path in ns && ns[path] == curr
    modifies curr
    ensures Valid(ns)
    ensures Keys(ns) == old(Keys(ns)) + {path}
  {
    curr.isEndOfFile := 1;
    forall q | q in ns && q != path
      ensures ns[q].isEndOfFile == old(ns[q].isEndOfFile)
    {
      assert ns[q] != curr;
    }
    forall q, i | q in ns && 0 <= i < CHAR_SIZE
      ensures Linked(ns, q, i)
    {
      assert old(Linked(ns, q, i));
    }
  }

  /** One step of `insertFile`: from the node at `p`, go to its child for `c`, first
      creating that child, with no end mark and no children, if its slot is empty. */
  method Descend(curr: TrieNode, c: char, ghost ns: map<string, TrieNode>, ghost p: string)
    returns (next: TrieNode, ghost ns': map<string, TrieNode>)
    requires Valid(ns) && p in ns && ns[p] == curr && IsPath(p + [c])
    modifies curr.children
    ensures Valid(ns') && p + [c] in ns' && ns'[p + [c]] == next
    ensures ns'.Keys == ns.Keys + {p + [c]}
    ensures forall q | q in ns :: ns'[q] == ns[q]
    ensures forall q | q in ns' && q !in ns :: fresh(ns'[q]) && fresh(ns'[q].children)
    ensures Keys(ns') == old(Keys(ns))
  {
    var index := c as int;
    assert (p + [c])[|p|] == c && p + [index as char] == p + [c];
    assert Linked(ns, p, index);
    ns' := ns;
    if curr.children[index] == null {
      var node := new TrieNode();
      curr.children[index] := node;
      forall q, j | q in ns && 0 <= j < CHAR_SIZE && (q != p || j != index)
        ensures Linked(ns, q, j)
      {
        assert old(Linked(ns, q, j));
      }
      AddLeaf(ns, p, index, node);
      ns' := ns[p + [c] := node];
    }
    next := curr.children[index];
  }

  /** Hanging a node with no end mark and empty slots into the empty slot `i` of the node
      at `p` extends the trie by the path `p + [i]`. */
  lemma AddLeaf(ns: map<string, TrieNode>, p: string, i: int, node: TrieNode)
    requires Shaped(ns) && Distinct(ns) && p in ns && 0 <= i < CHAR_SIZE
    requires IsPath(p + [i as char]) && p + [i as char] !in ns
    requires forall q, j | q in ns && 0 <= j < CHAR_SIZE && (q != p || j != i) :: Linked(ns, q, j)
    requires forall q | q in ns :: ns[q] != node && ns[q].children != node.children
    requires node.isEndOfFile == 0 && node.children.Length == CHAR_SIZE
    requires forall j :: 0 <= j < CHAR_SIZE ==> node.children[j] == null
    requires ns[p].children[i] == node
    ensures Valid(ns[p + [i as char] := node])
  {
    var q := p + [i as char];
    var ns' := ns[q := node];
    forall r, c | r + [c] in ns'
      ensures r in ns'
    {
      if r + [c] == q {
        assert r == (r + [c])[..|r|] == q[..|p|] == p;
      }
    }
    forall r, j | r in ns' && 0 <= j < CHAR_SIZE
      ensures Linked(ns', r, j)
    {
      if r == q {
        assert |r + [j as char]| != |q|;
      } else if r + [j as char] == q {
        assert |r| == |p| && r == (r + [j as char])[..|r|];
        assert (r + [j as char])[|r|] == (p + [i as char])[|p|];
      } else {
        assert Linked(ns, r, j);
      }
    }
  }

  /** `searchFile`: walk down along `path`; 0 as soon as a slot is empty, else the end mark
      of the node reached. The answer is 1 exactly for stored files. */
  method SearchFile(root: TrieNode, path: string, ghost ns: map<string, TrieNode>)
    returns (r: int)
    requires Valid(ns) && ns[[]] == root && IsPath(path)
    ensures r == if path in Keys(ns) then 1 else 0
  {
    var curr := root;
    for i := 0 to |path|
      invariant path[..i] in ns && ns[path[..i]] == curr
    {
      var index := path[i] as int;
      assert path[..i + 1] == path[..i] + [index as char];
      assert Linked(ns, path[..i], index);
      if curr.children[index] == null {
        if path in ns {
          PrefixOfMember(ns.Keys, path, i + 1);
        }
        return 0;
      }
      curr := curr.children[index];
    }
    assert path[..|path|] == path;
    return curr.isEndOfFile;
  }

  /** `startsWith`: walk down along `prefix`; 0 as soon as a slot is empty, else 1. The
      answer is 1 exactly when `prefix` is empty or begins a stored file, so the empty
      prefix is found even in an empty trie. */
  method StartsWith(root: TrieNode, prefix: string, ghost ns: map<string, TrieNode>)
    returns (r: int)
    requires Trie(root, ns) && IsPath(prefix)
    ensures r == 0 || r == 1
    ensures r == 1 <==> prefix == [] || exists k :: k in Keys(ns) && prefix <= k
  {
    PathsArePrefixes(ns, prefix);
    var curr := root;
    for i := 0 to |prefix|
      invariant prefix[..i] in ns && ns[prefix[..i]] == curr
    {
      var index := prefix[i] as int;
      assert prefix[..i + 1] == prefix[..i] + [index as char];
      assert Linked(ns, prefix[..i], index);
      if curr.children[index] == null {
        if prefix in ns {
          PrefixOfMember(ns.Keys, prefix, i + 1);
        }
        return 0;
      }
      curr := curr.children[index];
    }
    assert prefix[..|prefix|] == prefix;
    return 1;
  }

  /** Strict lexicographic order by character code, a proper prefix coming first. */
  predicate LexLess(a: string, b: string) {
    a < b || exists j :: 0 <= j < |a| && j < |b| && a[..j] == b[..j] && a[j] < b[j]
  }

  predicate Ordered(files: seq<string>) {
    forall i, j :: 0 <= i < j < |files| ==> LexLess(files[i], files[j])
  }

  /** Two ordered listings, every entry of the first before every entry of the second. */
  lemma OrderedAppend(a: seq<string>, b: seq<string>)
    requires Ordered(a) && Ordered(b)
    requires forall x, y :: x in a && y in b ==> LexLess(x, y)
    ensures Ordered(a + b)
  {
    forall i, j | 0 <= i < j < |a + b|
      ensures LexLess((a + b)[i], (a + b)[j])
    {
      if i < |a| && j >= |a| {
        assert (a + b)[i] == a[i] && (a + b)[j] == b[j - |a|];
      }
    }
  }

  /** Strings that agree on `prefix` and then differ in the next character are ordered by
      that character. */
  lemma LexBranch(prefix: string, x: string, y: string)
    requires |prefix| < |x| && |prefix| < |y|
    requires x[..|prefix|] == prefix == y[..|prefix|] && x[|prefix|] < y[|prefix|]
    ensures LexLess(x, y)
  {
    var j := |prefix|;
    assert x[..j] == y[..j];
  }

  /** Every line of `files` is `prefix` followed by the rest of a stored file below `p`. */
  predicate ListsStored(ks: set<string>, p: string, prefix: string, files: seq<string>) {
    forall f | f in files :: prefix <= f && p + f[|prefix|..] in ks
  }

  /** Every line of `files` is `prefix` itself or continues it with a code below `i`. */
  predicate ListedBelow(prefix: string, files: seq<string>, i: int) {
    forall f | f in files :: prefix <= f && (f == prefix || f[|prefix|] as int < i)
  }

  /** Every stored file that is `p` or continues it with a code below `i` is listed. */
  predicate CoversBelow(ks: set<string>, p: string, prefix: string, files: seq<string>, i: int) {
    forall k | k in ks && p <= k && (k == p || k[|p|] as int < i) :: prefix + k[|p|..] in files
  }

  /** `printFilesWithPrefix` on the node at path `p`, with `prefix` the text already in the
      buffer: the lines printed, in order. They are the stored files below `p` with `p`
      replaced by `prefix`, each once, in ascending character-code order, a file before its
      extensions. */
  method PrintFilesWithPrefix(node: TrieNode, prefix: string, ghost ns: map<string, TrieNode>,
                              ghost p: string)
    returns (files: seq<string>)
    requires Valid(ns) && p in ns && ns[p] == node
    ensures Ordered(files)
    ensures forall k | k in Keys(ns) && p <= k :: prefix + k[|p|..] in files
    ensures forall f | f in files :: prefix <= f && p + f[|prefix|..] in Keys(ns)
    decreases |Below(ns.Keys, p)|
  {
    ghost var keys := Keys(ns);
    files := if node.isEndOfFile != 0 then [prefix] else [];
    assert prefix[|prefix|..] == [] && p[|p|..] == [] && prefix + [] == prefix && p + [] == p;
    for i := 0 to CHAR_SIZE
      invariant Ordered(files)
      invariant ListsStored(keys, p, prefix, files)
      invariant ListedBelow(prefix, files, i)
      invariant CoversBelow(keys, p, prefix, files, i)
    {
      var c := i as char;
      assert unchanged(Nodes(ns), Arrays(ns));
      assert Linked(ns, p, i);
      if node.children[i] != null {
        assert p + [c] in ns && ns[p + [c]] == node.children[i];
        BelowNarrows(ns.Keys, p, p + [c]);
        var sub := PrintFilesWithPrefix(node.children[i], prefix + [c], ns, p + [c]);
        assert Keys(ns) == keys by {
          assert unchanged(Nodes(ns));
        }
        SubLines(keys, p, c, prefix, sub);
        SubAfter(files, sub, prefix, c);
        OrderedAppend(files, sub);
        CoverChild(keys, p, c, prefix, files, sub);
        files := files + sub;
      } else {
        CoverEmpty(keys, ns, p, c, prefix, files);
      }
    }
    assert Keys(ns) == keys by {
      assert unchanged(Nodes(ns));
    }
  }

  /** The walk of `startsWith`, returning the node it ends on, or null when a slot on the
      way is empty. */
  method FindNode(root: TrieNode, prefix: string, ghost ns: map<string, TrieNode>)
    returns (node: TrieNode?)
    requires Valid(ns) && ns[[]] == root && IsPath(prefix)
    ensures node != null <==> prefix in ns
    ensures node != null ==> ns[prefix] == node
  {
    var curr := root;
    for i := 0 to |prefix|
      invariant prefix[..i] in ns && ns[prefix[..i]] == curr
    {
      var index := prefix[i] as int;
      assert prefix[..i + 1] == prefix[..i] + [index as char];
      assert Linked(ns, prefix[..i], index);
      if curr.children[index] == null {
        if prefix in ns {
          PrefixOfMember(ns.Keys, prefix, i + 1);
        }
        return null;
      }
      curr := curr.children[index];
    }
    assert prefix[..|prefix|] == prefix;
    return curr;
  }

  /** The listing the file-access demo evidently means to print under `prefix`: start
      `printFilesWithPrefix` at the node of `prefix` rather than at the root. It lists
      exactly the stored files that begin with `prefix`, in ascending character-code
      order. */
  method PrintFilesUnder(root: TrieNode, prefix: string, ghost ns: map<string, TrieNode>)
    returns (files: seq<string>)
    requires Valid(ns) && ns[[]] == root && IsPath(prefix)
    ensures Ordered(files)
    ensures forall k | k in Keys(ns) && prefix <= k :: k in files
    ensures forall f | f in files :: prefix <= f && f in Keys(ns)
  {
    var node := FindNode(root, prefix, ns);
    if node == null {
      forall k | k in Keys(ns) && prefix <= k
        ensures false
      {
        PrefixInDom(ns.Keys, prefix, k);
      }
      return [];
    }
    assert unchanged(Arrays(ns));
    files := PrintFilesWithPrefix(node, prefix, ns, prefix);
    forall k | prefix <= k
      ensures prefix + k[|prefix|..] == k
    {
      assert k == k[..|prefix|] + k[|prefix|..];
    }
  }

  /** The lines of the listing below child `c` are lines of the listing below `p` whose
      next character is `c`. */
  lemma SubLines(ks: set<string>, p: string, c: char, prefix: string, sub: seq<string>)
    requires forall f | f in sub :: prefix + [c] <= f && (p + [c]) + f[|prefix + [c]|..] in ks
    ensures forall f | f in sub :: prefix <= f && p + f[|prefix|..] in ks
    ensures forall f | f in sub :: |prefix| < |f| && f[|prefix|] == c
  {
    forall f | f in sub
      ensures prefix <= f && p + f[|prefix|..] in ks && |prefix| < |f| && f[|prefix|] == c
    {
      assert f[..|prefix| + 1] == prefix + [c];
      assert f[..|prefix|] == (prefix + [c])[..|prefix|] == prefix;
      assert f[|prefix|] == (prefix + [c])[|prefix|] == c;
      assert f[|prefix|..] == [c] + f[|prefix + [c]|..];
      assert p + f[|prefix|..] == (p + [c]) + f[|prefix + [c]|..];
    }
  }

  /** Once the listing below child `c` is appended, every stored file that is `p` or
      continues it with a code up to `c` is listed. */
  lemma CoverChild(ks: set<string>, p: string, c: char, prefix: string, files: seq<string>,
                   sub: seq<string>)
    requires CoversBelow(ks, p, prefix, files, c as int)
    requires forall k | k in ks && p + [c] <= k :: (prefix + [c]) + k[|p + [c]|..] in sub
    ensures CoversBelow(ks, p, prefix, files + sub, c as int + 1)
  {
    forall k | k in ks && p <= k && (k == p || k[|p|] as int < c as int + 1)
      ensures prefix + k[|p|..] in files + sub
    {
      if k != p && k[|p|] == c {
        assert k[..|p| + 1] == p + [c];
        assert p + [c] <= k;
        assert k[|p|..] == [c] + k[|p + [c]|..];
        assert prefix + k[|p|..] == (prefix + [c]) + k[|p + [c]|..];
      }
    }
  }

  /** With slot `c` of the node at `p` empty, no stored file continues `p` with `c`, so
      the listing so far covers the codes up to `c`. */
  lemma CoverEmpty(ks: set<string>, ns: map<string, TrieNode>, p: string, c: char,
                   prefix: string, files: seq<string>)
    requires PrefixClosed(ns.Keys) && ks <= ns.Keys && p + [c] !in ns
    requires CoversBelow(ks, p, prefix, files, c as int)
    ensures CoversBelow(ks, p, prefix, files, c as int + 1)
  {
    forall k | k in ks && p <= k && (k == p || k[|p|] as int < c as int + 1)
      ensures prefix + k[|p|..] in files
    {
      if k != p && k[|p|] == c {
        ChildOnPath(ns.Keys, p, k);
      }
    }
  }

  /** The lines gathered before child `c` come before the lines below child `c`. */
  lemma SubAfter(files: seq<string>, sub: seq<string>, prefix: string, c: char)
    requires forall f | f in files :: prefix <= f && (f == prefix || f[|prefix|] < c)
    requires forall f | f in sub :: prefix <= f && |prefix| < |f| && f[|prefix|] == c
    ensures forall x, y | x in files && y in sub :: LexLess(x, y)
  {
    forall x, y | x in files && y in sub
      ensures LexLess(x, y)
    {
      if x != prefix {
        LexBranch(prefix, x, y);
      }
    }
  }
}

/** The stand-alone demo of the file-access system: a fixed list of paths is inserted, two
    paths are searched for and one prefix is checked. */
module PathTrieDemo {
  import opened PathTrie

  /** The elements of a sequence, as a set. */
  function Elems<T>(s: seq<T>): set<T> {
    set x | x in s
  }

  lemma ElemsSnoc<T>(s: seq<T>, x: T)
    ensures Elems(s + [x]) == Elems(s) + {x}
  {
  }

  /** The insertion loop of the demo: the stored files gain exactly the listed paths. */
  method InsertAll(root: TrieNode, files: seq<string>, ghost ns: map<string, TrieNode>)
    returns (ghost ns': map<string, TrieNode>)
    requires Trie(root, ns) && forall i :: 0 <= i < |files| ==> IsPath(files[i])
    modifies Nodes(ns), Arrays(ns)
    ensures Trie(root, ns')
    ensures Keys(ns') == old(Keys(ns)) + Elems(files)
  {
    ns' := ns;
    ghost var stored := Keys(ns);
    for i := 0 to |files|
      invariant Trie(root, ns')
      invariant Keys(ns') == stored + Elems(files[..i])
      invariant forall p | p in ns :: p in ns' && ns'[p] == ns[p]
      invariant forall p | p in ns' && p !in ns :: fresh(ns'[p]) && fresh(ns'[p].children)
    {
      ns' := InsertFile(root, files[i], ns');
      assert files[..i + 1] == files[..i] + [files[i]];
      ElemsSnoc(files[..i], files[i]);
    }
    assert files[..|files|] == files;
  }

  /** A path just inserted is found, whatever the trie held before. */
  method InsertThenSearch(root: TrieNode, path: string, ghost ns: map<string, TrieNode>)
    returns (r: int)
    requires Trie(root, ns) && IsPath(path)
    modifies Nodes(ns), Arrays(ns)
    ensures r == 1
  {
    ghost var ns' := InsertFile(root, path, ns);
    label Inserted:
    r := SearchFile(root, path, ns');
    assert unchanged@Inserted(Nodes(ns'), Arrays(ns'));
  }

  /** The six files of the demo, each named so that its characters are checked on its
      own. */
  const Report: string := "/user/docs/report.txt"
  const Notes: string := "/user/docs/notes.txt"
  const Song: string := "/user/music/song.mp3"
  const Setup: string := "/downloads/setup.exe"
  const Img1: string := "/photos/vacation/img1.jpg"
  const Img2: string := "/photos/vacation/img2.jpg"
  const DemoFiles: seq<string> := [Report, Notes, Song, Setup, Img1, Img2]

  /** The two queries and the folder of the demo. */
  const Podcast: string := "/user/music/podcast.mp3"
  const Vacation: string := "/photos/vacation"

  lemma ReportIsPath() ensures IsPath(Report) {}
  lemma NotesIsPath() ensures IsPath(Notes) {}
  lemma SongIsPath() ensures IsPath(Song) {}
  lemma SetupIsPath() ensures IsPath(Setup) {}
  lemma Img1IsPath() ensures IsPath(Img1) {}
  lemma Img2IsPath() ensures IsPath(Img2) {}

  lemma DemoFilesArePaths()
    ensures forall i :: 0 <= i < |DemoFiles| ==> IsPath(DemoFiles[i])
  {
    ReportIsPath();
    NotesIsPath();
    SongIsPath();
    SetupIsPath();
    Img1IsPath();
    Img2IsPath();
  }

  /** The trie of the demo: a fresh root with the six files inserted in order. */
  method BuildDemoTrie() returns (root: TrieNode, ghost ns: map<string, TrieNode>)
    ensures Trie(root, ns) && Keys(ns) == Elems(DemoFiles)
  {
    root := new TrieNode();
    EmptyTrie(root);
    DemoFilesArePaths();
    ns := InsertAll(root, DemoFiles, map[[] := root]);
  }

  /** What the three queries of the demo meet in the list of files: the song is one of
      them, the podcast is not, and the holiday photos begin with the folder name. */
  lemma DemoQueries()
    ensures IsPath(Song) && Song in Elems(DemoFiles)
    ensures IsPath(Podcast) && Podcast !in Elems(DemoFiles)
    ensures IsPath(Vacation) && Img1 in Elems(DemoFiles) && Img2 in Elems(DemoFiles)
    ensures Vacation <= Img1 && Vacation <= Img2
  {
    SongIsPath();
    assert DemoFiles[2] == Song && DemoFiles[4] == Img1 && DemoFiles[5] == Img2;
    assert |Podcast| == 23;
  }

  /** A search for the song finds it, a search for a podcast that was never inserted does
      not, and the holiday-photo folder is a prefix of stored files. */
  method FileAccessDemo() returns (song: int, podcast: int, vacation: int)
    ensures song == 1 && podcast == 0 && vacation == 1
  {
    var root, ns := BuildDemoTrie();
    label Built:
    DemoQueries();
    song := SearchFile(root, Song, ns);
    assert unchanged@Built(Nodes(ns), Arrays(ns));
    podcast := SearchFile(root, Podcast, ns);
    assert unchanged@Built(Nodes(ns), Arrays(ns));
    vacation := StartsWith(root, Vacation, ns);
    assert unchanged@Built(Nodes(ns), Arrays(ns));
    assert Img1 in Keys(ns);
  }

  /** Of the demo's files, only the two photos begin with the folder name. */
  lemma OnlyPhotosUnderVacation(f: string)
    requires f in Elems(DemoFiles) && Vacation <= f
    ensures f == Img1 || f == Img2
  {
    assert f[1] == Vacation[1] == 'p';
    var i :| 0 <= i < |DemoFiles| && DemoFiles[i] == f;
    assert DemoFiles[i][1] == 'p';
  }

  /** The listing call of the demo as written: it passes the root, with the folder name
      already in the buffer, so it prints every stored path behind that text, not the files
      under it. Among the lines is one that names no stored file. */
  method DemoListingAsWritten() returns (files: seq<string>)
    ensures Vacation + Report in files
    ensures Vacation + Report !in Elems(DemoFiles)
  {
    var root, ns := BuildDemoTrie();
    assert DemoFiles[0] == Report && Report in Elems(DemoFiles);
    ghost var top: string := [];
    files := PrintFilesWithPrefix(root, Vacation, ns, top);
    assert top <= Report && Report[|top|..] == Report;
    ListedPathNotStored();
  }

  /** The folder name followed by `/user/docs/report.txt` is longer than every stored path. */
  lemma ListedPathNotStored()
    ensures Vacation + Report !in Elems(DemoFiles)
  {
    assert |Vacation + Report| == 37;
  }

  /** The listing the demo evidently intends: the two holiday photos, in order, and nothing
      else. */
  method DemoListing() returns (files: seq<string>)
    ensures Ordered(files)
    ensures Img1 in files && Img2 in files
    ensures forall f | f in files :: f == Img1 || f == Img2
  {
    var root, ns := BuildDemoTrie();
    label Built:
    DemoQueries();
    files := PrintFilesUnder(root, Vacation, ns);
    assert unchanged@Built(Nodes(ns), Arrays(ns));
    forall f | f in files
      ensures f == Img1 || f == Img2
    {
      OnlyPhotosUnderVacation(f);
    }
  }
}
