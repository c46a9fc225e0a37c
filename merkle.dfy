/** The Merkle-tree integrity engine: leaf and parent nodes, a tree's leaf array and root,
    the bottom-up build, verification of one file against the stored root, and simulated
    tampering. File names and contents are C strings, i.e. byte strings without NUL. */
module Merkle {
  import opened HexEncoding
  import opened MerkleSpec
  import opened Optional

  /** A node of the tree. `hash` is the C string held in the node's inline 65-byte array;
      `filename` and `data` are set for leaves and empty for internal nodes. The parent link
      the program writes is never read and is not modelled. */
  class MerkleNode {
    var hash: seq<byte>
    var left: MerkleNode?
    var right: MerkleNode?
    const filename: seq<byte>
    var data: seq<byte>

    /** `create_leaf`: copies of the name and the content, no children, and the hash text of
        `filename ++ data` as far as it fits in the 1024-byte buffer. */
    constructor Leaf(sha256: Sha256, filename: seq<byte>, data: seq<byte>)
      ensures this.filename == filename && this.data == data
      ensures left == null && right == null
      ensures hash == LeafText(sha256, filename, data)
    {
      var text := HashText(sha256, LeafInput(filename, data));
      this.filename := filename;
      this.data := data;
      left, right := null, null;
      hash := text;
    }

    /** `create_parent_node`: the two children and the hash text of their hash texts, a
        missing child contributing the empty string. */
    constructor Parent(sha256: Sha256, left: MerkleNode?, right: MerkleNode?)
      ensures this.left == left && this.right == right
      ensures filename == [] && data == []
      ensures hash == ParentText(sha256, HashOf(left), HashOf(right))
    {
      var text := HashText(sha256, ParentInput(HashOf(left), HashOf(right)));
      this.left, this.right := left, right;
      filename, data := [], [];
      hash := text;
    }
  }

  /** `sha256_hex` into a fresh 65-byte buffer, read back as a C string: the hex text of the
      digest. */
  method HashText(sha256: Sha256, input: seq<byte>) returns (text: seq<byte>)
    ensures text == Hex(sha256(input))
  {
    var buf := new byte[HASH_HEX_LEN];
    Sha256Hex(sha256, input, buf);
    CStrTerminated(Hex(sha256(input)));
    text := CStr(buf[..]);
  }

  /** The hash text a child link contributes: the empty string for NULL. */
  function HashOf(n: MerkleNode?): seq<byte>
    reads n
  {
    if n == null then [] else n.hash
  }

  /** The tree handle: the leaf array, its length and the root of the last build. The ghost
      fields are the names, hash texts and contents of the leaves in array order. */
  class MerkleTree {
    const sha256: Sha256
    var root: MerkleNode?
    var leaves: array<MerkleNode?>
    var leafCount: nat
    ghost var LeafNames: seq<seq<byte>>
    ghost var LeafHashes: seq<seq<byte>>
    ghost var LeafData: seq<seq<byte>>

    /** A zero-initialised tree: no leaves and no root. */
    constructor(sha256: Sha256)
      ensures this.sha256 == sha256 && root == null && leafCount == 0
      ensures Valid()
    {
      this.sha256 := sha256;
      root := null;
      leaves := new MerkleNode?[0];
      leafCount := 0;
      LeafNames, LeafHashes, LeafData := [], [], [];
    }

    /** The leaf array holds `leafCount` distinct leaves, each with a hash text, and the
        ghost fields mirror them. */
    ghost predicate Valid()
      reads this, leaves, leaves[..]
    {
      leaves.Length == leafCount
      && |LeafNames| == |LeafHashes| == |LeafData| == leafCount
      && (forall i :: 0 <= i < leafCount ==>
            leaves[i] != null && leaves[i].filename == LeafNames[i]
            && leaves[i].hash == LeafHashes[i] && leaves[i].data == LeafData[i])
      && AllHashSized(LeafHashes)
      && (forall i, j :: 0 <= i < j < leafCount ==> leaves[i] != leaves[j])
    }

    /** The leaf a scan by name stops at. */
    ghost function Find(filename: seq<byte>): Option<nat>
      reads this
    {
      FirstIndex(LeafNames, filename)
    }

    /** The root holds the Merkle root of the current leaf hashes. */
    ghost predicate Built()
      reads this, root
    {
      |LeafHashes| > 0 && root != null && root.hash == MerkleRoot(sha256, LeafHashes)
    }

    /** Leaf `k`'s stored hash is the one of its current name and content. */
    ghost predicate Current(k: nat)
      reads this
    {
      k < |LeafHashes| == |LeafNames| == |LeafData|
      && LeafHashes[k] == LeafText(sha256, LeafNames[k], LeafData[k])
    }
  }

  /** `build_leaves_from_arrays`: a fresh leaf for each of the first `n` name/content pairs,
      in input order and without deduplication. The root is left as it was. */
  method BuildLeavesFromArrays(tree: MerkleTree, filenames: seq<seq<byte>>,
                               contents: seq<seq<byte>>, n: nat) returns (r: int)
    requires n <= |filenames| && n <= |contents|
    modifies tree
    ensures r == 0
    ensures tree.Valid() && tree.leafCount == n && fresh(tree.leaves)
    ensures tree.root == old(tree.root)
    ensures tree.LeafNames == filenames[..n] && tree.LeafData == contents[..n]
    ensures forall i :: 0 <= i < n ==>
      tree.leaves[i] != null && fresh(tree.leaves[i])
      && tree.leaves[i].left == null && tree.leaves[i].right == null
      && tree.Current(i)
  {
    tree.leafCount := n;
    var leaves := new MerkleNode?[n];
    tree.leaves := leaves;
    for i := 0 to n
      invariant tree.leaves == leaves && tree.leafCount == n && tree.root == old(tree.root)
      invariant forall j :: 0 <= j < i ==>
        leaves[j] != null && fresh(leaves[j])
        && leaves[j].filename == filenames[j] && leaves[j].data == contents[j]
        && leaves[j].left == null && leaves[j].right == null
        && leaves[j].hash == LeafText(tree.sha256, filenames[j], contents[j])
      invariant forall j, j' :: 0 <= j < j' < i ==> leaves[j] != leaves[j']
    {
      leaves[i] := new MerkleNode.Leaf(tree.sha256, filenames[i], contents[i]);
    }
    tree.LeafNames := filenames[..n];
    tree.LeafData := contents[..n];
    tree.LeafHashes := seq(n, j requires 0 <= j < n => LeafText(tree.sha256, filenames[j], contents[j]));
    r := 0;
  }

  /** `build_merkle_tree`: -1 for a NULL tree or one without leaves. Otherwise pairs each
      level into fresh parents until one node is left, makes it the root and returns 0;
      `passes` counts the pairing passes. */
  method BuildMerkleTree(tree: MerkleTree?) returns (r: int, ghost passes: nat)
    requires tree != null ==> tree.Valid()
    modifies tree
    ensures r == -1 <==> tree == null || tree.leafCount == 0
    ensures r == -1 || r == 0
    ensures tree != null ==> tree.Valid() && tree.leaves == old(tree.leaves)
                             && tree.leafCount == old(tree.leafCount)
    ensures tree != null ==> tree.LeafNames == old(tree.LeafNames)
                             && tree.LeafHashes == old(tree.LeafHashes)
                             && tree.LeafData == old(tree.LeafData)
    ensures r == -1 && tree != null ==> tree.root == old(tree.root)
    ensures r == 0 ==> tree.Built() && passes == Passes(tree.leafCount)
    ensures r == 0 && tree.leafCount == 1 ==> tree.root == tree.leaves[0]
  {
    passes := 0;
    if tree == null || tree.leafCount == 0 {
      return -1, passes;
    }
    var n := tree.leafCount;
    ghost var count := n;
    var level := tree.leaves;
    ghost var hs := tree.LeafHashes;
    ghost var leafHashes := hs;
    while n > 1
      invariant 1 <= n <= level.Length && |hs| == n
      invariant forall k :: 0 <= k < n ==> level[k] != null && level[k].hash == hs[k]
      invariant MerkleRoot(tree.sha256, hs) == MerkleRoot(tree.sha256, leafHashes)
      invariant tree.leaves == old(tree.leaves) && tree.leafCount == count
      invariant tree.LeafNames == old(tree.LeafNames) && tree.LeafHashes == old(tree.LeafHashes)
      invariant tree.LeafData == old(tree.LeafData)
      invariant passes + Passes(n) == Passes(count)
      invariant passes == 0 ==> level == tree.leaves
      decreases n
    {
      var parentCount := (n + 1) / 2;
      ghost var next := NextLevel(tree.sha256, hs);
      var newLevel := PairLevel(tree.sha256, level, n, hs);
      level, n, hs := newLevel, parentCount, next;
      passes := passes + 1;
    }
    tree.root := level[0];
    r := 0;
  }

  /** `parent` is parent `k` of a level of `n` nodes: its children are nodes 2k and 2k+1 (none
      on the right when 2k is the last node) and its hash is `text`. */
  ghost predicate ParentOver(parent: MerkleNode, level: array<MerkleNode?>, n: nat, k: nat,
                             text: seq<byte>)
    reads parent, level
  {
    2 * k < level.Length
    && parent.left == level[2 * k]
    && parent.right == (if 2 * k + 1 < n && 2 * k + 1 < level.Length then level[2 * k + 1] else null)
    && parent.hash == text
  }

  /** One pass of `build_merkle_tree`: a fresh array of (n+1)/2 fresh parents, parent k
      over nodes 2k and 2k+1 (the last over node n-1 alone when n is odd). */
  method PairLevel(sha256: Sha256, level: array<MerkleNode?>, n: nat, ghost hs: seq<seq<byte>>)
    returns (parents: array<MerkleNode?>)
    requires 1 < n <= level.Length && |hs| == n
    requires forall k :: 0 <= k < n ==> level[k] != null && level[k].hash == hs[k]
    ensures fresh(parents) && parents.Length == (n + 1) / 2
    ensures forall k :: 0 <= k < parents.Length ==>
      parents[k] != null && fresh(parents[k]) && ParentOver(parents[k], level, n, k, NextLevel(sha256, hs)[k])
  {
    parents := new MerkleNode?[(n + 1) / 2];
    ghost var next := NextLevel(sha256, hs);
    var i := 0;
    while i < n
      invariant 0 <= i <= n + 1 && i % 2 == 0
      invariant forall k :: 0 <= k < i / 2 ==>
        parents[k] != null && fresh(parents[k]) && ParentOver(parents[k], level, n, k, next[k])
    {
      var parent := PairAt(sha256, level, n, hs, i);
      parents[i / 2] := parent;
      i := i + 2;
    }
  }

  /** The body of the pairing loop: a fresh parent over nodes i and i+1 (node i alone when
      it is the last), whose text is the one the next level has at i/2. */
  method PairAt(sha256: Sha256, level: array<MerkleNode?>, n: nat, ghost hs: seq<seq<byte>>,
                i: nat)
    returns (parent: MerkleNode)
    requires i < n <= level.Length && |hs| == n && i % 2 == 0
    requires forall k :: 0 <= k < n ==> level[k] != null && level[k].hash == hs[k]
    ensures fresh(parent) && ParentOver(parent, level, n, i / 2, NextLevel(sha256, hs)[i / 2])
  {
    var right := if i + 1 < n then level[i + 1] else null;
    parent := new MerkleNode.Parent(sha256, level[i], right);
    NextLevelAt(sha256, hs, i / 2);
  }

  /** The scan by name that `verify_file` and `tamper_file` share: the first leaf whose name
      equals `filename`. */
  method FindLeaf(tree: MerkleTree, filename: seq<byte>) returns (found: Option<nat>)
    requires tree.Valid()
    ensures found == tree.Find(filename)
  {
    ghost var names := tree.LeafNames;
    for i := 0 to tree.leafCount
      invariant filename !in names[..i]
    {
      if tree.leaves[i].filename == filename {
        FirstIndexUnique(names, filename, i);
        return Some(i);
      }
    }
    assert names[..tree.leafCount] == names;
    return None;
  }

  /** `verify_file`: -1 if no leaf has that name. Otherwise refreshes the hash of the first
      such leaf from its current content, rebuilds, and answers 1 if the root text is the
      one before and 0 if not. */
  method VerifyFile(tree: MerkleTree, filename: seq<byte>) returns (r: int)
    requires tree.Valid()
    requires tree.Find(filename).Some? ==> tree.root != null
    modifies tree, tree.leaves[..]
    ensures tree.Valid() && tree.leaves == old(tree.leaves) && tree.leafCount == old(tree.leafCount)
    ensures tree.LeafNames == old(tree.LeafNames) && tree.LeafData == old(tree.LeafData)
    ensures tree.Find(filename).None? ==>
      r == -1 && tree.root == old(tree.root) && tree.LeafHashes == old(tree.LeafHashes)
    ensures tree.Find(filename).Some? ==>
      var k := tree.Find(filename).value;
      tree.Built()
      && tree.LeafHashes == old(tree.LeafHashes)[k := LeafText(tree.sha256, filename, tree.LeafData[k])]
      && r == (if tree.root.hash == old(tree.root.hash) then 1 else 0)
    ensures tree.Find(filename).Some? && old(tree.Built()) && old(tree.Current(tree.Find(filename).value))
      ==> r == 1
    ensures tree.Find(filename).Some? && old(tree.Built()) && !old(tree.Current(tree.Find(filename).value))
      ==> r == 0 || CollisionIn(tree.sha256, TreeInputs(tree.sha256, tree.LeafHashes)
                                         + TreeInputs(tree.sha256, old(tree.LeafHashes)))
  {
    var found := FindLeaf(tree, filename);
    if found.None? {
      return -1;
    }
    var k := found.value;
    ghost var oldHashes := tree.LeafHashes;
    ghost var wasBuilt := tree.Built();
    ghost var wasCurrent := tree.Current(k);
    r := RefreshAndRebuild(tree, k);
    if wasCurrent {
      assert tree.LeafHashes == oldHashes;
    }
    if wasBuilt && tree.LeafHashes[k] != oldHashes[k] {
      ChangedLeafChangesRoot(tree.sha256, oldHashes, k, tree.LeafHashes[k]);
    }
  }

  /** The part of `verify_file` after the scan: keep the root text, refresh leaf `k`'s hash
      from its name and current content, rebuild, and compare the two root texts. */
  method RefreshAndRebuild(tree: MerkleTree, k: nat) returns (r: int)
    requires tree.Valid() && k < tree.leafCount && tree.root != null
    modifies tree, tree.leaves[k]
    ensures tree.Valid() && tree.leaves == old(tree.leaves) && tree.leafCount == old(tree.leafCount)
    ensures tree.LeafNames == old(tree.LeafNames) && tree.LeafData == old(tree.LeafData)
    ensures tree.LeafHashes
         == old(tree.LeafHashes)[k := LeafText(tree.sha256, tree.LeafNames[k], tree.LeafData[k])]
    ensures tree.Built()
    ensures r == if tree.root.hash == old(tree.root.hash) then 1 else 0
  {
    var oldRoot := tree.root.hash;
    var leaf := tree.leaves[k];
    var text := HashText(tree.sha256, LeafInput(leaf.filename, leaf.data));
    leaf.hash := text;
    tree.LeafHashes := tree.LeafHashes[k := text];
    var built;
    ghost var passes;
    built, passes := BuildMerkleTree(tree);
    r := if oldRoot == tree.root.hash then 1 else 0;
  }

  /** `tamper_file`: -1 for a NULL tree, name or content, or a name no leaf has. Otherwise
      replaces the content of the first leaf with that name and returns 0. No hash and not
      the root is touched. */
  method TamperFile(tree: MerkleTree?, filename: Option<seq<byte>>, newContent: Option<seq<byte>>)
    returns (r: int)
    requires tree != null ==> tree.Valid()
    modifies tree, if tree != null then tree.leaves[..] else []
    ensures r == -1 || r == 0
    ensures r == -1 <==> tree == null || filename.None? || newContent.None?
                         || tree.Find(filename.value).None?
    ensures tree != null ==>
      tree.Valid() && tree.root == old(tree.root) && tree.leaves == old(tree.leaves)
      && tree.leafCount == old(tree.leafCount) && tree.LeafNames == old(tree.LeafNames)
      && tree.LeafHashes == old(tree.LeafHashes)
    ensures tree != null && old(tree.Built()) ==> tree.Built()
    ensures r == -1 && tree != null ==> tree.LeafData == old(tree.LeafData)
    ensures r == 0 ==>
      tree.LeafData == old(tree.LeafData)[tree.Find(filename.value).value := newContent.value]
  {
    if tree == null || filename.None? || newContent.None? {
      return -1;
    }
    var found := FindLeaf(tree, filename.value);
    if found.None? {
      return -1;
    }
    tree.leaves[found.value].data := newContent.value;
    tree.LeafData := tree.LeafData[found.value := newContent.value];
    r := 0;
  }
}
