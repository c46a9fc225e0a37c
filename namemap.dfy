/** The chained hash map from file names to leaf nodes. Buckets are chosen by the djb2
    string hash; `put` puts a new entry at the head of its bucket and `get` returns the
    first entry of the bucket with that name. */
module NameMaps {
  import opened HexEncoding
  import opened Optional
  import opened Merkle

  /** `unsigned long` arithmetic wraps modulo 2^64 (LP64 platforms). */
  const WORD: nat := 0x1_0000_0000_0000_0000

  /** The `int` a `char` of the name converts to, `char` being signed. */
  function CharValue(b: byte): (c: int)
    ensures -128 <= c < 128
    ensures c % 256 == b
  {
    if b < 128 then b else b - 256
  }

  /** djb2 of a name: start at 5381, then `h * 33 + c` for each character, modulo 2^64. */
  function Djb2(s: seq<byte>): (h: nat)
    ensures h < WORD
  {
    if s == [] then 5381 else (Djb2(s[..|s| - 1]) * 33 + CharValue(s[|s| - 1])) % WORD
  }

  /** `djb2_hash`: the loop over the characters up to the terminating NUL. */
  method Djb2Hash(s: seq<byte>) returns (h: nat)
    ensures h == Djb2(s)
  {
    h := 5381;
    for i := 0 to |s|
      invariant h == Djb2(s[..i])
    {
      assert s[..i + 1][..i] == s[..i];
      h := (h * 33 + CharValue(s[i])) % WORD;
    }
    assert s[..|s|] == s;
  }

  datatype Entry = Entry(name: seq<byte>, node: MerkleNode?)

  /** The node of the first entry of `chain` with that name. */
  function ChainFind(chain: seq<Entry>, name: seq<byte>): (r: Option<MerkleNode?>)
    ensures r.Some? ==> exists j :: 0 <= j < |chain| && chain[j] == Entry(name, r.value)
                                   && forall i :: 0 <= i < j ==> chain[i].name != name
    ensures r.None? ==> forall e :: e in chain ==> e.name != name
  {
    if chain == [] then None
    else if chain[0].name == name then Some(chain[0].node)
    else ChainFind(chain[1..], name)
  }

  class NameMap {
    const nbuckets: nat
    const buckets: array<seq<Entry>>
    /** The name-to-node map the buckets represent. */
    ghost var Contents: map<seq<byte>, MerkleNode?>

    /** `namemap_create`: `nbuckets` empty buckets. */
    constructor(nbuckets: nat)
      ensures this.nbuckets == nbuckets && Contents == map[]
      ensures Valid() && fresh(buckets)
    {
      this.nbuckets := nbuckets;
      buckets := new seq<Entry>[nbuckets](_ => []);
      Contents := map[];
    }

    /** The bucket a name belongs to. */
    function Chain(name: seq<byte>): seq<Entry>
      requires nbuckets > 0 && buckets.Length == nbuckets
      reads buckets
    {
      buckets[Djb2(name) % nbuckets]
    }

    ghost predicate Valid()
      reads this, buckets
    {
      buckets.Length == nbuckets
      && (nbuckets == 0 ==> Contents == map[])
      && (nbuckets > 0 ==>
            forall name :: ChainFind(Chain(name), name)
                           == if name in Contents then Some(Contents[name]) else None)
    }

    /** `namemap_put`: a new entry at the head of the name's bucket; returns 0. */
    method Put(name: seq<byte>, node: MerkleNode?) returns (r: int)
      requires Valid() && nbuckets > 0
      modifies this, buckets
      ensures Valid() && r == 0
      ensures Contents == old(Contents)[name := node]
      ensures var h := Djb2(name) % nbuckets;
        buckets[h] == [Entry(name, node)] + old(buckets[h])
        && forall i :: 0 <= i < nbuckets && i != h ==> buckets[i] == old(buckets[i])
    {
      var hash := Djb2Hash(name);
      var h := hash % nbuckets;
      buckets[h] := [Entry(name, node)] + buckets[h];
      Contents := Contents[name := node];
      forall m
        ensures ChainFind(Chain(m), m) == if m in Contents then Some(Contents[m]) else None
      {
        if m != name && Djb2(m) % nbuckets == h {
          assert ChainFind(Chain(m), m) == ChainFind(old(buckets[h]), m);
          assert ChainFind(old(buckets[h]), m) == old(ChainFind(Chain(m), m));
        }
      }
      r := 0;
    }

    /** `namemap_get`: the node of the first entry with that name in its bucket, NULL if
        there is none. */
    method Get(name: seq<byte>) returns (node: MerkleNode?)
      requires Valid() && nbuckets > 0
      ensures node == if name in Contents then Contents[name] else null
    {
      var hash := Djb2Hash(name);
      var chain := buckets[hash % nbuckets];
      var i := 0;
      while i < |chain|
        invariant i <= |chain|
        invariant ChainFind(chain[i..], name) == ChainFind(chain, name)
      {
        if chain[i].name == name {
          return chain[i].node;
        }
        assert chain[i..][1..] == chain[i + 1..];
        i := i + 1;
      }
      return null;
    }
  }
}
