/** The hash texts of a Merkle tree as pure functions: the text of a leaf, of a parent,
    one level of pairing, and the root of a whole sequence of leaf texts. The imperative
    engine in module Merkle is proved against these. */
module MerkleSpec {
  import opened HexEncoding

  /** `char buffer[1024]` of create_leaf and verify_file, and `char concat[HASH_HEX_LEN * 2]`
      of create_parent_node. */
  const LEAF_BUFFER: nat := 1024
  const CONCAT_BUFFER: nat := 2 * HASH_HEX_LEN

  /** The text stored in a node's `hash`: 64 lower-case hex characters. */
  predicate IsHashText(s: seq<byte>) {
    |s| == 2 * DIGEST_LEN && forall i :: 0 <= i < |s| ==> IsHexDigit(s[i])
  }

  predicate AllHashTexts(hs: seq<seq<byte>>) {
    forall k :: 0 <= k < |hs| ==> IsHashText(hs[k])
  }

  /** Every text of a level has the length of a hash text. */
  predicate AllHashSized(hs: seq<seq<byte>>) {
    forall k :: 0 <= k < |hs| ==> |hs[k]| == 2 * DIGEST_LEN
  }

  /** The bytes a leaf hashes: `filename` then `data`, cut to what fits in the 1024-byte buffer. */
  function LeafInput(filename: seq<byte>, data: seq<byte>): seq<byte> {
    Format(LEAF_BUFFER, filename, data)
  }

  function LeafText(sha256: Sha256, filename: seq<byte>, data: seq<byte>): (t: seq<byte>)
    ensures IsHashText(t)
  {
    Hex(sha256(LeafInput(filename, data)))
  }

  /** The bytes a parent hashes: the text of its left child, then that of its right child
      (empty when there is none). */
  function ParentInput(left: seq<byte>, right: seq<byte>): seq<byte> {
    Format(CONCAT_BUFFER, left, right)
  }

  function ParentText(sha256: Sha256, left: seq<byte>, right: seq<byte>): (t: seq<byte>)
    ensures IsHashText(t)
  {
    Hex(sha256(ParentInput(left, right)))
  }

  /** Two hash texts always fit in the concatenation buffer: nothing is cut. */
  lemma ParentInputWhole(left: seq<byte>, right: seq<byte>)
    requires |left| <= 2 * DIGEST_LEN && |right| <= 2 * DIGEST_LEN
    ensures ParentInput(left, right) == left + right
  {
  }

  /** One pass of the build: nodes 2k and 2k+1 get a common parent, a last odd node a parent
      of its own. */
  function NextLevel(sha256: Sha256, hs: seq<seq<byte>>): (next: seq<seq<byte>>)
    ensures |next| == (|hs| + 1) / 2
    ensures AllHashTexts(next)
    decreases |hs|
  {
    if |hs| == 0 then []
    else if |hs| == 1 then [ParentText(sha256, hs[0], [])]
    else [ParentText(sha256, hs[0], hs[1])] + NextLevel(sha256, hs[2..])
  }

  /** The parent at index k of the next level. */
  lemma {:induction false} NextLevelAt(sha256: Sha256, hs: seq<seq<byte>>, k: nat)
    requires k < (|hs| + 1) / 2
    ensures NextLevel(sha256, hs)[k]
         == ParentText(sha256, hs[2 * k], if 2 * k + 1 < |hs| then hs[2 * k + 1] else [])
    decreases |hs|
  {
    if k > 0 {
      NextLevelAt(sha256, hs[2..], k - 1);
      assert NextLevel(sha256, hs)[k] == NextLevel(sha256, hs[2..])[k - 1];
      assert hs[2..][2 * (k - 1)] == hs[2 * k];
      if 2 * k + 1 < |hs| {
        assert hs[2..][2 * (k - 1) + 1] == hs[2 * k + 1];
      }
    }
  }

  /** The text of the root: pair the level until one node is left. */
  function MerkleRoot(sha256: Sha256, hs: seq<seq<byte>>): seq<byte>
    requires |hs| > 0
    decreases |hs|
  {
    if |hs| == 1 then hs[0] else MerkleRoot(sha256, NextLevel(sha256, hs))
  }

  lemma RootIsHashText(sha256: Sha256, hs: seq<seq<byte>>)
    requires |hs| > 0 && AllHashTexts(hs)
    ensures IsHashText(MerkleRoot(sha256, hs))
    decreases |hs|
  {
    if |hs| > 1 {
      RootIsHashText(sha256, NextLevel(sha256, hs));
    }
  }

  /** Number of pairing passes the build makes over `n` leaves. */
  function Passes(n: nat): nat
    requires n > 0
  {
    if n == 1 then 0 else 1 + Passes((n + 1) / 2)
  }

  function Pow2(k: nat): (p: nat)
    ensures p >= 1
  {
    if k == 0 then 1 else 2 * Pow2(k - 1)
  }

  /** The build makes ceil(log2 n) passes: the least k with n <= 2^k. */
  lemma {:induction false} PassesIsCeilLog2(n: nat)
    requires n > 0
    ensures n <= Pow2(Passes(n))
    ensures n > 1 ==> Pow2(Passes(n) - 1) < n
  {
    if n > 1 {
      var m := (n + 1) / 2;
      PassesIsCeilLog2(m);
      assert Pow2(Passes(n)) == 2 * Pow2(Passes(m));
    }
  }

  /** Two distinct inputs in `inputs` with the same digest. */
  ghost predicate CollisionIn(sha256: Sha256, inputs: set<seq<byte>>) {
    exists a, b :: a in inputs && b in inputs && a != b && sha256(a) == sha256(b)
  }

  /** The inputs hashed by one pass of the build. */
  function LevelInputs(hs: seq<seq<byte>>): set<seq<byte>>
    decreases |hs|
  {
    if |hs| == 0 then {}
    else if |hs| == 1 then {ParentInput(hs[0], [])}
    else {ParentInput(hs[0], hs[1])} + LevelInputs(hs[2..])
  }

  /** The inputs hashed by all passes of the build. */
  function TreeInputs(sha256: Sha256, hs: seq<seq<byte>>): set<seq<byte>>
    requires |hs| > 0
    decreases |hs|
  {
    if |hs| == 1 then {} else LevelInputs(hs) + TreeInputs(sha256, NextLevel(sha256, hs))
  }

  /** One pass hashes at most one input per parent it makes. */
  lemma {:induction false} LevelInputsBound(hs: seq<seq<byte>>)
    ensures |LevelInputs(hs)| <= (|hs| + 1) / 2
    decreases |hs|
  {
    if |hs| > 1 {
      LevelInputsBound(hs[2..]);
    }
  }

  /** A whole build over `n` leaves hashes at most 2n - 2 distinct inputs, one per parent. */
  lemma {:induction false} TreeInputsBound(sha256: Sha256, hs: seq<seq<byte>>)
    requires |hs| > 0
    ensures |TreeInputs(sha256, hs)| <= 2 * |hs| - 2
    decreases |hs|
  {
    if |hs| > 1 {
      LevelInputsBound(hs);
      TreeInputsBound(sha256, NextLevel(sha256, hs));
    }
  }

  /** Equal hash texts mean equal hashed inputs, or a collision between the two. */
  lemma TextBinds(sha256: Sha256, a: seq<byte>, b: seq<byte>)
    requires Hex(sha256(a)) == Hex(sha256(b))
    ensures a == b || CollisionIn(sha256, {a, b})
  {
    HexInjective(sha256(a), sha256(b));
    if a != b {
      assert a in {a, b} && b in {a, b};
    }
  }

  /** Equal parent texts over children of hash-text length mean equal children, or a
      collision between the two concatenations. */
  lemma PairBinds(sha256: Sha256, h0: seq<byte>, h1: seq<byte>, g0: seq<byte>, g1: seq<byte>)
    requires |h0| == |g0| == 2 * DIGEST_LEN
    requires |h1| <= 2 * DIGEST_LEN && |g1| <= 2 * DIGEST_LEN
    requires ParentText(sha256, h0, h1) == ParentText(sha256, g0, g1)
    ensures (h0 == g0 && h1 == g1) || CollisionIn(sha256, {ParentInput(h0, h1), ParentInput(g0, g1)})
  {
    ParentInputWhole(h0, h1);
    ParentInputWhole(g0, g1);
    TextBinds(sha256, ParentInput(h0, h1), ParentInput(g0, g1));
    if h0 + h1 == g0 + g1 {
      assert h0 == (h0 + h1)[..|h0|] && g0 == (g0 + g1)[..|g0|];
      assert h1 == (h0 + h1)[|h0|..] && g1 == (g0 + g1)[|g0|..];
    }
  }

  /** A level is determined by the level above it, unless SHA-256 collides on two of the
      inputs that pass hashed. */
  lemma {:induction false} NextLevelBinds(sha256: Sha256, hs: seq<seq<byte>>, gs: seq<seq<byte>>)
    requires |hs| == |gs|
    requires AllHashSized(hs) && AllHashSized(gs)
    requires NextLevel(sha256, hs) == NextLevel(sha256, gs)
    ensures hs == gs || CollisionIn(sha256, LevelInputs(hs) + LevelInputs(gs))
    decreases |hs|
  {
    var all := LevelInputs(hs) + LevelInputs(gs);
    if |hs| == 1 {
      assert NextLevel(sha256, hs)[0] == ParentText(sha256, hs[0], []);
      assert NextLevel(sha256, gs)[0] == ParentText(sha256, gs[0], []);
      PairBinds(sha256, hs[0], [], gs[0], []);
      if hs != gs {
        CollisionGrows(sha256, {ParentInput(hs[0], []), ParentInput(gs[0], [])}, all);
      }
    } else if |hs| > 1 {
      assert NextLevel(sha256, hs)[0] == ParentText(sha256, hs[0], hs[1]);
      assert NextLevel(sha256, gs)[0] == ParentText(sha256, gs[0], gs[1]);
      PairBinds(sha256, hs[0], hs[1], gs[0], gs[1]);
      if hs[0] != gs[0] || hs[1] != gs[1] {
        CollisionGrows(sha256, {ParentInput(hs[0], hs[1]), ParentInput(gs[0], gs[1])}, all);
      } else {
        assert NextLevel(sha256, hs)[1..] == NextLevel(sha256, hs[2..]);
        assert NextLevel(sha256, gs)[1..] == NextLevel(sha256, gs[2..]);
        NextLevelBinds(sha256, hs[2..], gs[2..]);
        if hs[2..] == gs[2..] {
          assert hs == hs[..2] + hs[2..] && gs == gs[..2] + gs[2..];
        } else {
          CollisionGrows(sha256, LevelInputs(hs[2..]) + LevelInputs(gs[2..]), all);
        }
      }
    }
  }

  lemma CollisionGrows(sha256: Sha256, small: set<seq<byte>>, large: set<seq<byte>>)
    requires small <= large && CollisionIn(sha256, small)
    ensures CollisionIn(sha256, large)
  {
    var a, b :| a in small && b in small && a != b && sha256(a) == sha256(b);
    assert a in large && b in large;
  }

  /** The root text fixes every leaf text, unless SHA-256 collides on two of the inputs the
      two builds hashed. */
  lemma {:induction false} RootBinds(sha256: Sha256, hs: seq<seq<byte>>, gs: seq<seq<byte>>)
    requires |hs| == |gs| > 0
    requires AllHashSized(hs) && AllHashSized(gs)
    requires MerkleRoot(sha256, hs) == MerkleRoot(sha256, gs)
    ensures hs == gs || CollisionIn(sha256, TreeInputs(sha256, hs) + TreeInputs(sha256, gs))
    decreases |hs|
  {
    if |hs| > 1 {
      var nh, ng := NextLevel(sha256, hs), NextLevel(sha256, gs);
      var all := TreeInputs(sha256, hs) + TreeInputs(sha256, gs);
      RootBinds(sha256, nh, ng);
      if nh == ng {
        NextLevelBinds(sha256, hs, gs);
        if hs != gs {
          CollisionGrows(sha256, LevelInputs(hs) + LevelInputs(gs), all);
        }
      } else {
        CollisionGrows(sha256, TreeInputs(sha256, nh) + TreeInputs(sha256, ng), all);
      }
    }
  }

  /** Changing one leaf text changes the root text, unless SHA-256 collides on two of the
      inputs the two builds hashed. */
  lemma ChangedLeafChangesRoot(sha256: Sha256, hs: seq<seq<byte>>, k: nat, t: seq<byte>)
    requires k < |hs| && AllHashSized(hs) && |t| == 2 * DIGEST_LEN && t != hs[k]
    ensures MerkleRoot(sha256, hs[k := t]) != MerkleRoot(sha256, hs)
         || CollisionIn(sha256, TreeInputs(sha256, hs[k := t]) + TreeInputs(sha256, hs))
  {
    if MerkleRoot(sha256, hs[k := t]) == MerkleRoot(sha256, hs) {
      RootBinds(sha256, hs[k := t], hs);
      assert hs[k := t][k] != hs[k];
    }
  }

  /** Bytes past the first 1023 of `filename ++ data` never reach the hash: appending to
      content that already fills the buffer leaves the leaf text as it was. */
  lemma LeafIgnoresOverflow(sha256: Sha256, filename: seq<byte>, data: seq<byte>, extra: seq<byte>)
    requires |filename + data| >= LEAF_BUFFER - 1
    ensures LeafText(sha256, filename, data + extra) == LeafText(sha256, filename, data)
  {
    var whole := filename + data;
    assert filename + (data + extra) == whole + extra;
    assert (whole + extra)[..LEAF_BUFFER - 1] == whole[..LEAF_BUFFER - 1];
    assert LeafInput(filename, data + extra) == whole[..LEAF_BUFFER - 1];
    if |whole| == LEAF_BUFFER - 1 {
      assert whole[..LEAF_BUFFER - 1] == whole;
    }
    assert LeafInput(filename, data) == whole[..LEAF_BUFFER - 1];
  }
}
