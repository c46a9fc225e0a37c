/** The integrity-verification session of the command-line demo: files are hashed into a
    tree, every file is verified, one file's content is overwritten, and every file is
    verified again in the same order. */
module MerkleDemo {
  import opened HexEncoding
  import opened MerkleSpec
  import opened Optional
  import opened Merkle
  import opened NameMaps

  /** The leaf hash texts of a list of files. */
  function LeafTexts(sha256: Sha256, filenames: seq<seq<byte>>, contents: seq<seq<byte>>)
    : (hs: seq<seq<byte>>)
    requires |filenames| == |contents|
    ensures |hs| == |filenames|
    ensures forall k :: 0 <= k < |hs| ==> hs[k] == LeafText(sha256, filenames[k], contents[k])
  {
    seq(|filenames|, k requires 0 <= k < |filenames| => LeafText(sha256, filenames[k], contents[k]))
  }

  /** Leaf hashes of which the first `i` have been refreshed to `texts` and the others
      are still `start`. */
  function Refreshed(texts: seq<seq<byte>>, start: seq<seq<byte>>, i: nat): (hs: seq<seq<byte>>)
    requires |texts| == |start|
    ensures |hs| == |start|
    ensures forall k :: 0 <= k < |hs| ==> hs[k] == if k < i then texts[k] else start[k]
  {
    seq(|start|, k requires 0 <= k < |start| => if k < i then texts[k] else start[k])
  }

  /** The inputs hashed by the builds before and after leaf `i` is refreshed. */
  function StepInputs(sha256: Sha256, texts: seq<seq<byte>>, start: seq<seq<byte>>, i: nat)
    : set<seq<byte>>
    requires |texts| == |start| > 0
  {
    TreeInputs(sha256, Refreshed(texts, start, i)) + TreeInputs(sha256, Refreshed(texts, start, i + 1))
  }

  /** One call of `verify_file` on the `i`-th of distinctly named files whose first `i`
      leaf hashes have been refreshed: leaf `i` is refreshed too, and the answer is 1 if its
      hash was current; otherwise it is 0 unless SHA-256 maps two of the inputs hashed by
      the builds before and after to the same digest. */
  method VerifyLeaf(tree: MerkleTree, filenames: seq<seq<byte>>, i: nat,
                    ghost texts: seq<seq<byte>>, ghost start: seq<seq<byte>>)
    returns (v: int)
    requires tree.Valid() && tree.Built() && tree.LeafNames == filenames
    requires forall i, j :: 0 <= i < j < |filenames| ==> filenames[i] != filenames[j]
    requires i < |filenames|
    requires texts == LeafTexts(tree.sha256, filenames, tree.LeafData)
    requires |start| == |texts| && tree.LeafHashes == Refreshed(texts, start, i)
    modifies tree, tree.leaves[..]
    ensures tree.Valid() && tree.Built() && tree.leaves == old(tree.leaves)
    ensures tree.LeafNames == filenames && tree.LeafData == old(tree.LeafData)
    ensures tree.LeafHashes == Refreshed(texts, start, i + 1)
    ensures start[i] == texts[i] ==> v == 1
    ensures start[i] != texts[i] ==> v == 0 || CollisionIn(tree.sha256, StepInputs(tree.sha256, texts, start, i))
  {
    FirstIndexUnique(filenames, filenames[i], i);
    v := VerifyFile(tree, filenames[i]);
    assert tree.LeafHashes == Refreshed(texts, start, i + 1);
  }

  /** Each answer is 1 for a leaf whose hash was current, and 0 for one whose hash was
      stale unless SHA-256 maps two of the inputs hashed by the builds before and after
      its refresh to the same digest. */
  ghost predicate Sound(sha256: Sha256, results: seq<int>, texts: seq<seq<byte>>, start: seq<seq<byte>>)
  {
    |results| <= |texts| == |start|
    && forall k :: 0 <= k < |results| ==>
         (start[k] == texts[k] ==> results[k] == 1)
         && (start[k] != texts[k] ==> results[k] == 0 || CollisionIn(sha256, StepInputs(sha256, texts, start, k)))
  }

  lemma SoundExtend(sha256: Sha256, results: seq<int>, texts: seq<seq<byte>>,
                    start: seq<seq<byte>>, v: int)
    requires Sound(sha256, results, texts, start) && |results| < |texts|
    requires start[|results|] == texts[|results|] ==> v == 1
    requires start[|results|] != texts[|results|] ==>
      v == 0 || CollisionIn(sha256, StepInputs(sha256, texts, start, |results|))
    ensures Sound(sha256, results + [v], texts, start)
  {
  }

  /** Verifies every file of the tree in leaf order, as the demo's verification loops do,
      when at most the leaf `stale` is out of date. Every other file verifies as intact, and
      so does `stale` if its leaf was current; otherwise its answer is 0 unless SHA-256 maps
      two of the inputs hashed by the builds before and after the round to the same digest.
      Afterwards every leaf is current. */
  method VerifyEach(tree: MerkleTree, filenames: seq<seq<byte>>, ghost stale: nat)
    returns (results: seq<int>)
    requires tree.Valid() && tree.Built() && tree.LeafNames == filenames
    requires forall i, j :: 0 <= i < j < |filenames| ==> filenames[i] != filenames[j]
    requires stale < |filenames|
    requires forall k :: 0 <= k < |filenames| && k != stale ==>
      tree.LeafHashes[k] == LeafText(tree.sha256, filenames[k], tree.LeafData[k])
    modifies tree, tree.leaves[..]
    ensures tree.Valid() && tree.Built() && |results| == |filenames|
    ensures tree.leaves == old(tree.leaves) && tree.LeafNames == filenames
    ensures tree.LeafData == old(tree.LeafData)
    ensures tree.LeafHashes == LeafTexts(tree.sha256, filenames, tree.LeafData)
    ensures forall k :: 0 <= k < |filenames| && k != stale ==> results[k] == 1
    ensures old(tree.LeafHashes[stale]) == tree.LeafHashes[stale] ==> results[stale] == 1
    ensures old(tree.LeafHashes[stale]) != tree.LeafHashes[stale] ==>
      results[stale] == 0
      || CollisionIn(tree.sha256, TreeInputs(tree.sha256, old(tree.LeafHashes))
                                  + TreeInputs(tree.sha256, tree.LeafHashes))
  {
    ghost var texts := LeafTexts(tree.sha256, filenames, tree.LeafData);
    ghost var start := tree.LeafHashes;
    results := [];
    for i := 0 to tree.leafCount
      invariant tree.Valid() && tree.Built() && tree.LeafNames == filenames && |results| == i
      invariant tree.leaves == old(tree.leaves) && tree.LeafData == old(tree.LeafData)
      invariant tree.LeafHashes == Refreshed(texts, start, i)
      invariant Sound(tree.sha256, results, texts, start)
    {
      var v := VerifyLeaf(tree, filenames, i, texts, start);
      SoundExtend(tree.sha256, results, texts, start, v);
      results := results + [v];
    }
    assert tree.LeafHashes == texts;
    assert Refreshed(texts, start, stale) == start && Refreshed(texts, start, stale + 1) == texts;
  }

  /** Number of buckets of the demo's name map. */
  const NBUCKETS: nat := 32

  /** What a name map holds after `put` of `nodes[k]` under `names[k]` for each k in turn:
      each name maps to the node put last under it. */
  ghost function Index(names: seq<seq<byte>>, nodes: seq<MerkleNode?>): map<seq<byte>, MerkleNode?>
    requires |names| == |nodes|
  {
    if names == [] then map[]
    else Index(names[..|names| - 1], nodes[..|nodes| - 1])[names[|names| - 1] := nodes[|nodes| - 1]]
  }

  /** With distinct names, the index maps each name to its own node and holds no other
      name. */
  lemma {:induction false} IndexOfDistinct(names: seq<seq<byte>>, nodes: seq<MerkleNode?>)
    requires |names| == |nodes|
    requires forall i, j :: 0 <= i < j < |names| ==> names[i] != names[j]
    ensures forall k :: 0 <= k < |names| ==>
      names[k] in Index(names, nodes) && Index(names, nodes)[names[k]] == nodes[k]
    ensures forall name :: name in Index(names, nodes) ==> name in names
  {
    if names != [] {
      var n := |names| - 1;
      var pre, preNodes := names[..n], nodes[..n];
      IndexOfDistinct(pre, preNodes);
      var index := Index(names, nodes);
      assert index == Index(pre, preNodes)[names[n] := nodes[n]];
      forall k | 0 <= k < |names|
        ensures names[k] in index && index[names[k]] == nodes[k]
      {
        if k < n {
          assert names[k] == pre[k] && nodes[k] == preNodes[k] && names[k] != names[n];
        }
      }
      forall name | name in index
        ensures name in names
      {
        if name != names[n] {
          var k :| 0 <= k < n && pre[k] == name;
          assert names[k] == name;
        }
      }
    }
  }

  /** The name map of the demo: `NBUCKETS` buckets, then each leaf put under its own name,
      in leaf order. */
  method IndexLeaves(tree: MerkleTree) returns (index: NameMap)
    requires tree.Valid()
    ensures fresh(index) && fresh(index.buckets)
    ensures index.Valid() && index.nbuckets == NBUCKETS
    ensures index.Contents == Index(tree.LeafNames, tree.leaves[..])
    ensures (forall i, j :: 0 <= i < j < |tree.LeafNames| ==> tree.LeafNames[i] != tree.LeafNames[j]) ==>
      forall k :: 0 <= k < |tree.LeafNames| ==>
        tree.LeafNames[k] in index.Contents && index.Contents[tree.LeafNames[k]] == tree.leaves[k]
  {
    index := new NameMap(NBUCKETS);
    for i := 0 to tree.leafCount
      invariant fresh(index) && fresh(index.buckets)
      invariant index.Valid() && index.nbuckets == NBUCKETS
      invariant index.Contents == Index(tree.LeafNames[..i], tree.leaves[..i])
    {
      assert tree.LeafNames[..i + 1][..i] == tree.LeafNames[..i];
      assert tree.leaves[..i + 1][..i] == tree.leaves[..i];
      var r := index.Put(tree.leaves[i].filename, tree.leaves[i]);
    }
    assert tree.LeafNames[..tree.leafCount] == tree.LeafNames;
    assert tree.leaves[..tree.leafCount] == tree.leaves[..];
    if forall i, j :: 0 <= i < j < |tree.LeafNames| ==> tree.LeafNames[i] != tree.LeafNames[j] {
      IndexOfDistinct(tree.LeafNames, tree.leaves[..]);
    }
  }

  /** A leaf per file, in order, and the tree built over them. */
  method BuildTree(sha256: Sha256, filenames: seq<seq<byte>>, contents: seq<seq<byte>>)
    returns (tree: MerkleTree)
    requires 0 < |filenames| == |contents|
    ensures fresh(tree) && fresh(tree.leaves)
    ensures forall k :: 0 <= k < tree.leaves.Length ==> fresh(tree.leaves[k])
    ensures tree.sha256 == sha256 && tree.Valid() && tree.Built()
    ensures tree.LeafNames == filenames && tree.LeafData == contents
    ensures tree.LeafHashes == LeafTexts(sha256, filenames, contents)
  {
    tree := new MerkleTree(sha256);
    var r := BuildLeavesFromArrays(tree, filenames, contents, |filenames|);
    assert filenames[..|filenames|] == filenames && contents[..|contents|] == contents;
    ghost var passes;
    r, passes := BuildMerkleTree(tree);
    assert forall k :: 0 <= k < |filenames| ==> tree.Current(k);
  }

  /** The set-up of the demo: the tree over the files, and each leaf put in a fresh name map
      under its name. The demo fills the map before it builds the tree; the build changes
      no leaf and `put` changes no node of the tree, so the order is immaterial. */
  method SetUp(sha256: Sha256, filenames: seq<seq<byte>>, contents: seq<seq<byte>>)
    returns (tree: MerkleTree, index: NameMap)
    requires 0 < |filenames| == |contents|
    ensures fresh(tree) && fresh(tree.leaves)
    ensures forall k :: 0 <= k < tree.leaves.Length ==> fresh(tree.leaves[k])
    ensures tree.sha256 == sha256 && tree.Valid() && tree.Built()
    ensures tree.LeafNames == filenames && tree.LeafData == contents
    ensures tree.LeafHashes == LeafTexts(sha256, filenames, contents)
    ensures fresh(index) && index.Valid() && index.nbuckets == NBUCKETS
    ensures index.Contents == Index(filenames, tree.leaves[..])
  {
    tree := BuildTree(sha256, filenames, contents);
    index := IndexLeaves(tree);
  }

  /** The inputs SHA-256 is applied to when file `victim` of a session is tampered with:
      its leaf input before and after, and the parent inputs of the builds over the leaf
      texts before and after. */
  ghost function SessionInputs(sha256: Sha256, filenames: seq<seq<byte>>, contents: seq<seq<byte>>,
                               victim: nat, newContent: seq<byte>): set<seq<byte>>
    requires |filenames| == |contents| && victim < |contents|
  {
    {LeafInput(filenames[victim], contents[victim]), LeafInput(filenames[victim], newContent)}
    + TreeInputs(sha256, LeafTexts(sha256, filenames, contents))
    + TreeInputs(sha256, LeafTexts(sha256, filenames, contents[victim := newContent]))
  }

  /** A session hashes at most 4n - 2 distinct inputs for its `n` files. */
  lemma SessionInputsBound(sha256: Sha256, filenames: seq<seq<byte>>, contents: seq<seq<byte>>,
                           victim: nat, newContent: seq<byte>)
    requires |filenames| == |contents| && victim < |contents|
    ensures |SessionInputs(sha256, filenames, contents, victim, newContent)| <= 4 * |filenames| - 2
  {
    TreeInputsBound(sha256, LeafTexts(sha256, filenames, contents));
    TreeInputsBound(sha256, LeafTexts(sha256, filenames, contents[victim := newContent]));
  }

  /** Overwrites the content of file `victim` and verifies every file again: every other
      file verifies as intact, and `victim` answers 0 unless its new content leaves the
      hashed bytes as they were, or SHA-256 maps two of the session's inputs to the same
      digest. */
  method TamperAndVerify(tree: MerkleTree, filenames: seq<seq<byte>>, victim: nat,
                         newContent: seq<byte>) returns (results: seq<int>)
    requires tree.Valid() && tree.Built() && tree.LeafNames == filenames
    requires forall i, j :: 0 <= i < j < |filenames| ==> filenames[i] != filenames[j]
    requires victim < |filenames|
    requires tree.LeafHashes == LeafTexts(tree.sha256, filenames, tree.LeafData)
    modifies tree, tree.leaves[..]
    ensures |results| == |filenames|
    ensures forall k :: 0 <= k < |filenames| && k != victim ==> results[k] == 1
    ensures LeafInput(filenames[victim], old(tree.LeafData[victim]))
            != LeafInput(filenames[victim], newContent)
      ==> results[victim] == 0
          || CollisionIn(tree.sha256, SessionInputs(tree.sha256, filenames, old(tree.LeafData), victim, newContent))
  {
    FirstIndexUnique(filenames, filenames[victim], victim);
    ghost var sha256 := tree.sha256;
    ghost var a := LeafInput(filenames[victim], tree.LeafData[victim]);
    ghost var b := LeafInput(filenames[victim], newContent);
    ghost var hs := tree.LeafHashes;
    ghost var data := tree.LeafData;
    ghost var all := SessionInputs(sha256, filenames, data, victim, newContent);
    var r := TamperFile(tree, Some(filenames[victim]), Some(newContent));
    assert tree.LeafHashes == hs && tree.LeafData == data[victim := newContent];
    results := VerifyEach(tree, filenames, victim);
    ghost var gs := LeafTexts(sha256, filenames, data[victim := newContent]);
    assert tree.LeafHashes == gs;
    if a != b && results[victim] != 0 {
      if hs[victim] == gs[victim] {
        TextBinds(sha256, a, b);
        CollisionGrows(sha256, {a, b}, all);
      } else {
        CollisionGrows(sha256, TreeInputs(sha256, hs) + TreeInputs(sha256, gs), all);
      }
    }
  }

  /** The session of the demo for any distinct file names and any contents: build the
      leaves and the tree, verify every file, overwrite the content of file `victim`, and
      verify every file again. The first round answers 1 everywhere, the second answers 1
      for every other file; for `victim` it answers 0 unless its new content leaves the
      hashed bytes as they were, or SHA-256 maps two of the session's inputs to the same
      digest. */
  method TamperSession(sha256: Sha256, filenames: seq<seq<byte>>, contents: seq<seq<byte>>,
                       victim: nat, newContent: seq<byte>)
    returns (first: seq<int>, second: seq<int>)
    requires 0 < |filenames| == |contents|
    requires forall i, j :: 0 <= i < j < |filenames| ==> filenames[i] != filenames[j]
    requires victim < |filenames|
    ensures |first| == |second| == |filenames|
    ensures forall k :: 0 <= k < |filenames| ==> first[k] == 1
    ensures forall k :: 0 <= k < |filenames| && k != victim ==> second[k] == 1
    ensures LeafInput(filenames[victim], contents[victim]) != LeafInput(filenames[victim], newContent)
      ==> second[victim] == 0
          || CollisionIn(sha256, SessionInputs(sha256, filenames, contents, victim, newContent))
  {
    var tree, index := SetUp(sha256, filenames, contents);
    first := VerifyEach(tree, filenames, 0);
    second := TamperAndVerify(tree, filenames, victim, newContent);
  }

  /** The bytes of an ASCII text. */
  function Ascii(s: string): seq<byte> {
    seq(|s|, i requires 0 <= i < |s| => s[i] as int % 256)
  }

  /** The demo's files, their contents, and the content written over `math.txt`. */
  const DemoNames: seq<seq<byte>> := [Ascii("math.txt"), Ascii("ai.txt"), Ascii("ethics.txt")]
  const DemoContents: seq<seq<byte>> :=
    [Ascii("Mathematics is the language of the universe."),
     Ascii("Artificial Intelligence is shaping the future."),
     Ascii("Ethics keeps technology human-centered.")]
  const Hacked: seq<byte> := Ascii("hacked content!")

  /** The demo's three files, with `math.txt` overwritten by "hacked content!": every file
      is intact at first; afterwards the other two are still intact, and `math.txt` is
      reported tampered unless SHA-256 maps two of the session's at most ten inputs to the
      same digest. */
  method DemoSession(sha256: Sha256) returns (first: seq<int>, second: seq<int>)
    ensures first == [1, 1, 1]
    ensures |second| == 3 && second[1] == 1 && second[2] == 1
    ensures second[0] == 0 || CollisionIn(sha256, SessionInputs(sha256, DemoNames, DemoContents, 0, Hacked))
    ensures |SessionInputs(sha256, DemoNames, DemoContents, 0, Hacked)| <= 10
  {
    assert |LeafInput(DemoNames[0], DemoContents[0])| != |LeafInput(DemoNames[0], Hacked)|;
    first, second := TamperSession(sha256, DemoNames, DemoContents, 0, Hacked);
    SessionInputsBound(sha256, DemoNames, DemoContents, 0, Hacked);
  }
}
